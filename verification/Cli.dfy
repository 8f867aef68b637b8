/** The commands of cli/src/index.ts and cli/src/prover.ts as they work on the wallet's files: rebuild the
    tree, take the path, compute the witness and its public values, write down what happened. Each is
    proved to compute what the run model uses. */
module Cli {
  import opened ScalarField
  import opened Merkle
  import opened Outcomes
  import opened Circuits
  import opened Ledger
  import opened Bookkeeping
  import opened PoolSafety
  import opened PoolTheorems
  import opened Store
  import opened Wallet
  import opened WalletRuns
  import ClientTree

  ghost function WalletOf(files: Files, ownerSk: Fe): WalletState
    reads files
  {
    WalletState(ownerSk, files.notes, files.leaves)
  }

  /** A path is determined by the leaves and the index. */
  lemma PathIsUnique(h: Hashes, leaves: seq<Fe>, index: nat, elements: seq<Fe>, bits: seq<nat>)
    requires IsPath(TreeOf(h), leaves, index, elements, bits) && |bits| == DEPTH
    ensures elements == PathElements(h, leaves, index) && bits == BitsOf(index, DEPTH)
  {
    hide Node, Ancestor;
  }

  /** buildTree and pathFor; None where either throws. */
  method PathOf(h: Hashes, files: Files, index: nat) returns (r: Option<(seq<Fe>, seq<Fe>)>)
    ensures r == if |files.leaves| <= 256 && index < |files.leaves|
                 then Some((PathElements(h, files.leaves, index), BitsOf(index, DEPTH))) else None
  {
    DepthFits();
    hide PathElements, BitsOf, Pow2, IsPath, Fold, LeafIndex;
    var tree := files.BuildTree(TreeOf(h), DEPTH);
    if tree.None? {
      return None;
    }
    var path := tree.value.PathFor(index);
    if path.None? {
      return None;
    }
    var (elements, bits) := path.value;
    PathIsUnique(h, files.leaves, index, elements, bits);
    var indices: seq<Fe> := bits;
    r := Some((elements, indices));
  }

  /** The nullifier of a path's leaf, its index read back from the path bits. */
  method NullifierFor(h: Hashes, ownerSk: Fe, rho: Fe, indices: seq<Fe>) returns (nullifier: Fe)
    requires |indices| <= 31 && IsBinary(indices)
    ensures nullifier == Nullifier(h, ownerSk, rho, Reduce(LeafIndex(indices)))
  {
    hide LeafIndex, Nullifier, Reduce;
    var leafIndex := ClientTree.PathIndicesToLeafIndex(indices);
    nullifier := Nullifier(h, ownerSk, rho, Reduce(leafIndex));
  }

  lemma BitsAreBinary(index: nat)
    ensures IsBinary(BitsOf(index, DEPTH))
  {
    hide Ancestor;
  }

  /** The prover's change is an integer difference; the circuit's is the same value as a field difference. */
  lemma ChangeAgrees(amount: int, amountIn: int)
    ensures Reduce(amount - amountIn) == Sub(Reduce(amount), Reduce(amountIn))
  {
    ReduceTwice(amount);
    ReduceTwice(amountIn);
    CongruentSub(amount, amountIn, Reduce(amount), Reduce(amountIn));
  }

  lemma ReduceTwice(x: int)
    ensures Reduce(Reduce(x)) == Reduce(x)
  {
  }

  /** provePrivateSwap: the private witness and the nine public values claimed for it. */
  method ProvePrivateSwap(h: Hashes, files: Files, ownerSk: Fe, n: WalletNote, root: Fe, buyYes: bool, p: Plan,
                          amountIn: int, rhoOut: Fe, rhoChange: Fe)
    returns (r: Option<(SwapPublic, SwapPrivate)>)
    ensures var u := SwapWitness(h, WalletOf(files, ownerSk), n, p, amountIn, rhoOut, rhoChange);
      r == if |files.leaves| <= 256 && n.leafIndex < |files.leaves|
           then Some((ProverInputs(h, root, buyYes, p, u), u)) else None
  {
    hide PathElements, BitsOf, Pow2, LeafIndex, Reduce, Sub, Nullifier, NoteCommitment, OwnerPk;
    var path := PathOf(h, files, n.leafIndex);
    if path.None? {
      return None;
    }
    var (elements, indices) := path.value;
    BitsAreBinary(n.leafIndex);
    var nullifier := NullifierFor(h, ownerSk, n.rho, indices);
    var ownerPk := OwnerPk(h, ownerSk);
    var change := n.amount - amountIn;
    ChangeAgrees(n.amount, amountIn);
    var outCommitment := NoteCommitment(h, CircuitAsset(buyYes), Reduce(p.amountOut), ownerPk, rhoOut);
    var changeCommitment := NoteCommitment(h, 0, Reduce(change), ownerPk, rhoChange);
    var u := SwapPrivate(ownerSk, Reduce(n.amount), n.rho, elements, indices, Reduce(amountIn), Reduce(p.amountOut),
                         rhoOut, rhoChange);
    var claimed := SwapPublic(root, nullifier, outCommitment, changeCommitment,
                              Reduce(p.reserveInBefore), Reduce(p.reserveOutBefore),
                              Reduce(p.reserveInAfter), Reduce(p.reserveOutAfter), CircuitAsset(buyYes));
    r := Some((claimed, u));
  }

  /** proveUnshield: the witness and the nullifier submitted with it. */
  method ProveUnshield(h: Hashes, files: Files, ownerSk: Fe, n: WalletNote) returns (r: Option<(Fe, UnshieldPrivate)>)
    ensures var u := UnshieldWitness(h, WalletOf(files, ownerSk), n);
      r == if |files.leaves| <= 256 && n.leafIndex < |files.leaves|
           then Some((Nullifier(h, u.ownerSk, u.rho, Reduce(LeafIndex(u.indices))), u)) else None
  {
    hide PathElements, BitsOf, Pow2, LeafIndex, Reduce, Nullifier;
    var path := PathOf(h, files, n.leafIndex);
    if path.None? {
      return None;
    }
    var (elements, indices) := path.value;
    BitsAreBinary(n.leafIndex);
    var nullifier := NullifierFor(h, ownerSk, n.rho, indices);
    r := Some((nullifier, UnshieldPrivate(ownerSk, n.rho, elements, indices)));
  }

  // ---- Writing down ----

  method RecordShield(h: Hashes, files: Files, ownerSk: Fe, cmd: Command)
    requires cmd.ShieldCmd? && 0 <= cmd.amount < BOUND
    modifies files
    ensures WalletOf(files, ownerSk) == LocalShield(h, old(WalletOf(files, ownerSk)), cmd)
  {
    hide OwnerPk, NoteCommitment;
    var ownerPk := OwnerPk(h, ownerSk);
    var commitment := NoteCommitment(h, 0, cmd.amount, ownerPk, cmd.rho);
    var leafIndex := files.AppendLeaf(commitment);
    files.AddNote(WalletNote(0, cmd.amount, ownerPk, cmd.rho, leafIndex, commitment, false));
  }

  method RecordSwap(files: Files, ownerSk: Fe, n: WalletNote, e: Event, cmd: Command, p: Plan)
    requires cmd.SwapCmd? && e.call.SwapCall? && cmd.amountIn <= n.amount && p.amountOut >= 0
    modifies files
    ensures WalletOf(files, ownerSk) == LocalSwap(old(WalletOf(files, ownerSk)), n, e, cmd, p)
  {
    files.MarkSpent(n.commitment);
    var outIndex := files.AppendLeaf(e.call.outCommitment);
    var changeIndex := files.AppendLeaf(e.call.changeCommitment);
    files.AddNote(WalletNote(CircuitAsset(cmd.buyYes), p.amountOut, n.ownerPk, cmd.rhoOut, outIndex,
                             e.call.outCommitment, false));
    files.AddNote(WalletNote(0, n.amount - cmd.amountIn, n.ownerPk, cmd.rhoChange, changeIndex,
                             e.call.changeCommitment, false));
  }

  method RecordUnshield(files: Files, ownerSk: Fe, n: WalletNote)
    modifies files
    ensures WalletOf(files, ownerSk) == LocalUnshield(old(WalletOf(files, ownerSk)), n)
  {
    files.MarkSpent(n.commitment);
  }

  /** Sync leaves exactly what the run model's sync does, for the one merge the events allow. */
  method RecordSync(files: Files, ownerSk: Fe, events: seq<LeafEvent>) returns (ghost merged: seq<Fe>)
    modifies files
    ensures IsMerge(old(files.leaves), events, merged)
    ensures WalletOf(files, ownerSk) == old(WalletOf(files, ownerSk)).(leaves := merged,
                                          notes := AllPatched(old(files.notes), merged))
  {
    files.SyncLeavesAndNotes(events);
    merged := files.leaves;
  }
}
