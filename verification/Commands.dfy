/** What each wallet command submits, written out in the hashes, and that the contract accepts it. */
module Commands {
  import opened ScalarField
  import opened Merkle
  import opened Outcomes
  import opened Circuits
  import opened Ledger
  import opened Bookkeeping
  import opened PoolSafety
  import opened Entrypoints
  import opened PoolTheorems
  import opened Store
  import opened Wallet
  import opened WalletRuns

  // ---- shield ----

  /** Any positive amount below 2^64: a collateral note of the wallet's key, paid for by the signer. */
  lemma ShieldCommandWorks(w: World, s: State, wal: WalletState, from: Address, amount: int, rho: Fe)
    requires NoZeroDivisors() && s.config.Some? && 0 !in s.denied && |s.leaves| + 1 < 0x1_0000_0000
    requires 0 < amount < 0x1_0000_0000_0000_0000 <= R && Balance(s.balances, from) >= amount
    ensures var pk := w.h.h1(wal.ownerSk);
      var leaf := w.h.h4(0, amount, pk, rho);
      var e := Event(ShieldCall(from, amount, leaf, 0), {from}, true, ShieldSecrets(pk, rho));
      && EventOf(w.h, s, wal, ShieldCmd(from, amount, rho)) == Some(e)
      && Apply(w, s, e).Ok? && Apply(w, s, e).value.leaves == s.leaves + [leaf]
      && Transferred(s, Apply(w, s, e).value, from, w.self, amount)
  {
    hide Transferred, Step;
    HonestShieldAccepted(w.h, w.self, s, from, amount, wal.ownerSk, rho, 0, {from});
  }

  // ---- unshield ----

  /** The nullifier of a leaf index within one tree, from the bits of its path. */
  lemma PathNullifier(h: Hashes, ownerSk: Fe, rho: Fe, index: nat)
    requires index < 256 <= R
    ensures Nullifier(h, ownerSk, rho, Reduce(LeafIndex(BitsOf(index, DEPTH)))) == h.h3(ownerSk, rho, index)
  {
    hide Slot, LeafIndex, BitsOf, Reduce;
    DepthFits();
    BitsSpellSlot(index);
    SlotIsRemainder(index);
    SmallReduces(index);
  }

  /** The command submits this call with a valid proof, and the contract accepts it and pays. */
  ghost predicate Submits(w: World, c: Configuration, wal: WalletState, cmd: Command, call: Call, recipient: Address,
                          sum: nat)
  {
    var e := EventOf(w.h, c.s, wal, cmd);
    && e.Some? && e.value.call == call && e.value.proofOk && Apply(w, c.s, e.value).Ok?
    && Transferred(c.s, Apply(w, c.s, e.value).value, w.self, recipient, sum)
  }

  /** The first unspent collateral note whole, at the current root and without fee, to the named recipient. */
  lemma UnshieldCommandWorks(w: World, c: Configuration, wal: WalletState, i: nat, index: Fe, recipient: Address,
                             field: Fe)
    requires i < |wal.notes| && index == wal.notes[i].leafIndex && index < |c.b.notes| && index !in c.b.spent
    requires 0 < wal.notes[i].amount < 0x1_0000_0000_0000_0000
    requires NullifierInput(c.b.notes, index, wal.ownerSk) in w.q.q3 && wal.ownerSk in w.q.q1
    requires |c.s.leaves| <= 256 && c.s.config.Some? && FirstUnspent(wal.notes, 0) == Some(i)
    requires Holding(w, c, wal, wal.notes[i])
    requires Solvent(w, c) && NoZeroDivisors() && Ideal(w) && Inv(w, c.s, c.b)
    ensures var (n, root) := (wal.notes[i], Root(TreeOf(w.h), 8, c.s.leaves));
      var call := UnshieldCall(root, w.h.h3(wal.ownerSk, n.rho, index), n.amount, recipient, field, 0);
      Submits(w, c, wal, UnshieldCmd(recipient, field), call, recipient, n.amount)
  {
    hide Ideal, Inv, Solvent, Pow2, Transferred, Step, EventOf, NullifierInput, FirstUnspent, UnshieldWitness;
    var n, cmd := wal.notes[i], UnshieldCmd(recipient, field);
    DepthFits();
    FirstIsCollateral(wal.notes, i);
    HonestUnshieldAccepted(w, c, wal, n, recipient, field);
    UnshieldSubmits(w, c, wal, cmd, i);
    SubmittedUnshieldIs(w.h, CurrentRoot(w.h, c.s), wal, n, recipient, field);
  }

  lemma FirstIsCollateral(notes: seq<WalletNote>, i: nat)
    requires FirstUnspent(notes, 0) == Some(i) && i < |notes|
    ensures notes[i].asset == 0
  {
  }

  /** The command submits its call whenever that has a witness. */
  lemma UnshieldSubmits(w: World, c: Configuration, wal: WalletState, cmd: Command, i: nat)
    requires cmd.UnshieldCmd? && FirstUnspent(wal.notes, 0) == Some(i) && i < |wal.notes|
    requires |wal.leaves| <= Pow2(DEPTH) && wal.notes[i].leafIndex < |wal.leaves| && wal.notes[i].amount < BOUND
    requires var u := UnshieldWitness(w.h, wal, wal.notes[i]);
      var call := SubmittedUnshield(w.h, CurrentRoot(w.h, c.s), wal.notes[i], u, cmd.recipient, cmd.field);
      call.UnshieldCall? && exists t :: Circuits.Unshield(w.h, DEPTH, UnshieldInputs(call), u, t)
    ensures var u := UnshieldWitness(w.h, wal, wal.notes[i]);
      EventOf(w.h, c.s, wal, cmd)
      == Some(Event(SubmittedUnshield(w.h, CurrentRoot(w.h, c.s), wal.notes[i], u, cmd.recipient, cmd.field), {}, true,
                    UnshieldSecrets(u)))
  {
    hide Circuits.Unshield, CurrentRoot, UnshieldWitness, SubmittedUnshield, Pow2, FirstUnspent;
  }

  lemma SubmittedUnshieldIs(h: Hashes, root: Fe, wal: WalletState, n: WalletNote, recipient: Address, field: Fe)
    requires n.amount < BOUND && n.leafIndex < 256 <= R
    ensures SubmittedUnshield(h, root, n, UnshieldWitness(h, wal, n), recipient, field)
         == UnshieldCall(root, h.h3(wal.ownerSk, n.rho, n.leafIndex), n.amount, recipient, field, 0)
  {
    hide PathElements, BitsOf, LeafIndex, Reduce, Nullifier;
    PathNullifier(h, wal.ownerSk, n.rho, n.leafIndex);
  }

  // ---- swap ----

  /** The one exact trade for an amount, as the command plans it. */
  lemma PlanIsTrade(buyYes: bool, amountIn: int, inAmount: int, yes: int, no: int, out: int)
    requires 0 <= amountIn <= inAmount && 0 <= yes && 0 <= no && out > 0
    requires var (before, other) := if buyYes then (no, yes) else (yes, no);
      before + amountIn > 0 && (before + amountIn) * (other - out) == before * other
    ensures var (before, other) := if buyYes then (no, yes) else (yes, no);
      PlanSwap(buyYes, amountIn, inAmount, yes, no) == Some(Plan(before, other, before + amountIn, other - out, out))
  {
    var (before, other) := if buyYes then (no, yes) else (yes, no);
    assert IsTrade(before, other, before + amountIn, out);
    PlanExists(buyYes, amountIn, inAmount, yes, no);
    var p := PlanSwap(buyYes, amountIn, inAmount, yes, no).value;
    SameFactor(before + amountIn, p.reserveOutAfter, other - out);
  }

  lemma SameFactor(d: int, x: int, y: int)
    requires d > 0 && d * x == d * y
    ensures x == y
  {
    if x < y {
      Growing(d, x, y);
    } else if y < x {
      Growing(d, y, x);
    }
  }

  lemma Growing(d: int, x: int, y: int)
    ensures d > 0 && x < y ==> d * x < d * y
  {
    if d > 0 && x < y {
      assert d * (y - x) > 0;
    }
  }

  lemma SubmittedSwapIs(h: Hashes, wal: WalletState, n: WalletNote, buyYes: bool, p: Plan, amountIn: int, rhoOut: Fe,
                        rhoChange: Fe)
    requires FitsCircuit(p) && n.leafIndex < 256 && 0 <= amountIn <= n.amount < BOUND && 0 <= p.amountOut < BOUND < R
    ensures var u, pk := SwapWitness(h, wal, n, p, amountIn, rhoOut, rhoChange), h.h1(wal.ownerSk);
      SubmittedSwap(h, buyYes, p, u)
      == SwapCall(h.h3(wal.ownerSk, n.rho, n.leafIndex), h.h4(if buyYes then 1 else 2, p.amountOut, pk, rhoOut),
                  h.h4(0, n.amount - amountIn, pk, rhoChange), p.reserveInBefore, p.reserveOutBefore, p.reserveInAfter,
                  p.reserveOutAfter, if buyYes then 0 else 1, 0)
  {
    hide PathElements, BitsOf, LeafIndex, Reduce, Sub;
    PathNullifier(h, wal.ownerSk, n.rho, n.leafIndex);
    SmallReduces(n.amount);
    SmallReduces(amountIn);
    SmallReduces(p.amountOut);
    DifferenceInRange(n.amount, amountIn);
  }

  /** A swap's integers: what is paid in and out, the reserves after it, and the rest of the note. */
  datatype Trade = Trade(paid: Fe, out: Fe, rest: Fe, inBefore: I128, outBefore: I128, inAfter: I128, outAfter: I128)

  /** The trade is on these reserves and this note, pays something out, keeps the product and stays below
      2^64. */
  ghost predicate IsTradeOn(t: Trade, buyYes: bool, amount: nat, yes: I128, no: I128) {
    && (buyYes ==> t.inBefore == no && t.outBefore == yes) && (!buyYes ==> t.inBefore == yes && t.outBefore == no)
    && t.inAfter == t.inBefore + t.paid && t.outAfter == t.outBefore - t.out && t.rest == amount - t.paid
    && t.inAfter * t.outAfter == t.inBefore * t.outBefore && t.out > 0 && t.outAfter >= 0 && t.inAfter > 0
    && t.inAfter < 0x1_0000_0000_0000_0000 && 0 <= t.outBefore < 0x1_0000_0000_0000_0000 && t.inBefore >= 0
  }

  /** The call such a trade must make: these hashes, these reserves, the contract's selector, no fee. */
  function TradeCall(h: Hashes, ownerSk: Fe, n: WalletNote, index: Fe, buyYes: bool, t: Trade, rhoOut: Fe,
                     rhoChange: Fe): Call {
    var pk := h.h1(ownerSk);
    SwapCall(h.h3(ownerSk, n.rho, index), h.h4(if buyYes then 1 else 2, t.out, pk, rhoOut),
             h.h4(0, t.rest, pk, rhoChange), t.inBefore, t.outBefore, t.inAfter, t.outAfter, if buyYes then 0 else 1, 0)
  }

  function PlanOf(t: Trade): Plan { Plan(t.inBefore, t.outBefore, t.inAfter, t.outAfter, t.out) }

  lemma TradeIsPlanned(t: Trade, buyYes: bool, amount: nat, yes: I128, no: I128)
    requires IsTradeOn(t, buyYes, amount, yes, no)
    ensures PlanSwap(buyYes, t.paid, amount, yes, no) == Some(PlanOf(t)) && FitsCircuit(PlanOf(t))
  {
    hide PlanSwap;
    PlanIsTrade(buyYes, t.paid, amount, yes, no, t.out);
  }

  lemma TradeIsSubmitted(h: Hashes, wal: WalletState, n: WalletNote, index: Fe, buyYes: bool, t: Trade, rhoOut: Fe,
                         rhoChange: Fe, yes: I128, no: I128)
    requires IsTradeOn(t, buyYes, n.amount, yes, no) && n.amount < BOUND < R && index == n.leafIndex < 256
    requires FitsCircuit(PlanOf(t))
    ensures SubmittedSwap(h, buyYes, PlanOf(t), SwapWitness(h, wal, n, PlanOf(t), t.paid, rhoOut, rhoChange))
         == TradeCall(h, wal.ownerSk, n, index, buyYes, t, rhoOut, rhoChange)
  {
    hide SwapWitness, SubmittedSwap;
    SubmittedSwapIs(h, wal, n, buyYes, PlanOf(t), t.paid, rhoOut, rhoChange);
  }

  /** The swap command for any trade on the chain's reserves and the wallet's first unspent collateral note:
      it submits that call, its proof is for the inputs the contract rebuilds, and the contract accepts. */
  lemma SwapCommandWorks(w: World, c: Configuration, wal: WalletState, i: nat, index: Fe, buyYes: bool, t: Trade,
                         rhoOut: Fe, rhoChange: Fe)
    requires NoZeroDivisors() && Ideal(w) && Inv(w, c.s, c.b) && c.s.config.Some? && |c.s.leaves| <= 256
    requires FirstUnspent(wal.notes, 0) == Some(i) && i < |wal.notes| && Holding(w, c, wal, wal.notes[i])
    requires index == wal.notes[i].leafIndex && index !in c.b.spent
    requires index < |c.b.notes| && NullifierInput(c.b.notes, index, wal.ownerSk) in w.q.q3
    requires IsTradeOn(t, buyYes, wal.notes[i].amount, c.s.yes, c.s.no)
    ensures var e := EventOf(w.h, c.s, wal, SwapCmd(buyYes, t.paid, rhoOut, rhoChange));
      && e.Some? && e.value.call == TradeCall(w.h, wal.ownerSk, wal.notes[i], index, buyYes, t, rhoOut, rhoChange)
      && e.value.proofOk && Apply(w, c.s, e.value).Ok?
  {
    hide Ideal, Inv, Pow2, Step, EventOf, NullifierInput, FirstUnspent, PlanSwap, SwapWitness, SubmittedSwap, TradeCall;
    hide Circuits.PrivateSwap, ProverInputs, SwapInputs, SwapGuards, IsTradeOn, FitsCircuit, PlanOf;
    var n := wal.notes[i];
    DepthFits();
    FirstIsCollateral(wal.notes, i);
    NoteInRange(w, c, index);
    TradeIsPlanned(t, buyYes, n.amount, c.s.yes, c.s.no);
    HonestSwapAccepted(w, c, wal, n, buyYes, t.paid, rhoOut, rhoChange, PlanOf(t));
    TradeIsSubmitted(w.h, wal, n, index, buyYes, t, rhoOut, rhoChange, c.s.yes, c.s.no);
    SubmittedAsset(w.h, buyYes, PlanOf(t), SwapWitness(w.h, wal, n, PlanOf(t), t.paid, rhoOut, rhoChange));
    SwapSubmits(w, c, wal, SwapCmd(buyYes, t.paid, rhoOut, rhoChange), i, PlanOf(t));
  }

  lemma SwapSubmits(w: World, c: Configuration, wal: WalletState, cmd: Command, i: nat, p: Plan)
    requires cmd.SwapCmd? && FirstUnspent(wal.notes, 0) == Some(i) && i < |wal.notes|
    requires |wal.leaves| <= Pow2(DEPTH) && wal.notes[i].leafIndex < |wal.leaves| && FitsCircuit(p)
    requires PlanSwap(cmd.buyYes, cmd.amountIn, wal.notes[i].amount, c.s.yes, c.s.no) == Some(p)
    requires var u := SwapWitness(w.h, wal, wal.notes[i], p, cmd.amountIn, cmd.rhoOut, cmd.rhoChange);
      var call := SubmittedSwap(w.h, cmd.buyYes, p, u);
      && call.SwapCall? && call.assetOut <= 1
      && ProverInputs(w.h, CurrentRoot(w.h, c.s), cmd.buyYes, p, u) == SwapInputs(w.h, c.s, call)
      && exists t :: Circuits.PrivateSwap(w.h, DEPTH, SwapInputs(w.h, c.s, call), u, t)
    ensures var u := SwapWitness(w.h, wal, wal.notes[i], p, cmd.amountIn, cmd.rhoOut, cmd.rhoChange);
      EventOf(w.h, c.s, wal, cmd) == Some(Event(SubmittedSwap(w.h, cmd.buyYes, p, u), {}, true, SwapSecrets(u)))
  {
    hide Circuits.PrivateSwap, CurrentRoot, SwapWitness, SubmittedSwap, ProverInputs, SwapInputs, PlanSwap, Pow2;
    hide FirstUnspent, FitsCircuit;
  }
}
