/** The command-line wallet of cli/src/index.ts and cli/src/prover.ts: how it plans a swap, the witness
    and the call it builds, and what it writes down when the chain accepts. */
module Wallet {
  import opened ScalarField
  import opened Merkle
  import opened Outcomes
  import opened Circuits
  import opened Ledger
  import opened Bookkeeping
  import opened PoolSafety
  import opened Entrypoints
  import opened PoolTheorems
  import opened Store

  datatype WalletState = WalletState(ownerSk: Fe, notes: seq<WalletNote>, leaves: seq<Fe>)

  // ---- Planning a swap ----

  datatype Plan = Plan(
    reserveInBefore: int, reserveOutBefore: int, reserveInAfter: int, reserveOutAfter: int, amountOut: int)

  /** The exact constant-product trade for an amount, or None where the command throws: the amount is
      above the note's, the new reserve is zero or does not divide the product, or nothing comes out. */
  function PlanSwap(buyYes: bool, amountIn: int, inAmount: int, yes: int, no: int): (r: Option<Plan>)
    ensures r.Some? ==>
      var p := r.value;
      && amountIn <= inAmount && p.reserveInAfter == p.reserveInBefore + amountIn
      && 0 < p.amountOut == p.reserveOutBefore - p.reserveOutAfter
    ensures r.Some? && amountIn >= 0 && yes >= 0 && no >= 0 ==>
      var p := r.value;
      && amountIn <= inAmount && p.reserveInAfter == p.reserveInBefore + amountIn > 0
      && 0 < p.amountOut == p.reserveOutBefore - p.reserveOutAfter <= p.reserveOutBefore
      && p.reserveInBefore * p.reserveOutBefore == p.reserveInAfter * p.reserveOutAfter
      && (p.reserveInBefore, p.reserveOutBefore) == if buyYes then (no, yes) else (yes, no)
  {
    if amountIn > inAmount then None
    else
      var reserveInBefore := if buyYes then no else yes;
      var reserveOutBefore := if buyYes then yes else no;
      var k := reserveInBefore * reserveOutBefore;
      var reserveInAfter := reserveInBefore + amountIn;
      if reserveInAfter == 0 || k % reserveInAfter != 0 then None
      else
        var reserveOutAfter := k / reserveInAfter;
        var amountOut := reserveOutBefore - reserveOutAfter;
        if amountOut <= 0 then None
        else
          PlanIsExact(k, reserveInAfter, reserveInBefore, reserveOutBefore, amountIn);
          Some(Plan(reserveInBefore, reserveOutBefore, reserveInAfter, reserveOutAfter, amountOut))
  }

  /** A trade that takes out something and keeps the product. */
  ghost predicate IsTrade(before: int, other: int, after: int, out: int) {
    out > 0 && after * (other - out) == before * other
  }

  /** The command finds a plan exactly when the note covers the amount and an exact trade exists. */
  lemma PlanExists(buyYes: bool, amountIn: int, inAmount: int, yes: int, no: int)
    ensures var (before, other) := if buyYes then (no, yes) else (yes, no);
      var after := before + amountIn;
      PlanSwap(buyYes, amountIn, inAmount, yes, no).Some?
      <==> amountIn <= inAmount && after != 0 && exists out :: IsTrade(before, other, after, out)
  {
    var (before, other) := if buyYes then (no, yes) else (yes, no);
    var after, k := before + amountIn, before * other;
    if after != 0 {
      forall out | IsTrade(before, other, after, out)
        ensures k % after == 0 && other - k / after == out
      {
        ExactQuotient(k, after, other - out);
      }
      if k % after == 0 && other - k / after > 0 {
        PlanIsExact(k, after, before, other, amountIn);
        assert IsTrade(before, other, after, other - k / after);
      }
    }
  }

  lemma ExactQuotient(k: int, d: int, q: int)
    requires d != 0 && k == d * q
    ensures k % d == 0 && k / d == q
  {
    var e := q - k / d;
    Spread(d, q, k / d);
    if d > 0 {
      SmallMultiple(d, e);
    } else {
      Spread(d, 0, e);
      SmallMultiple(-d, -e);
    }
  }

  lemma Spread(d: int, x: int, y: int)
    ensures d * (x - y) == d * x - d * y && (-d) * (-y) == d * y
  {
  }

  lemma SmallMultiple(d: int, e: int)
    requires 0 <= d * e < d
    ensures e == 0
  {
    MultipleOutside(d, e);
  }

  lemma MultipleOutside(d: int, e: int)
    ensures d > 0 && e >= 1 ==> d * e >= d
    ensures d > 0 && e <= -1 ==> d * e <= -d
  {
    if d > 0 && e >= 1 {
      assert d * (e - 1) >= 0;
    }
    if d > 0 && e <= -1 {
      assert d * (e + 1) <= 0;
    }
  }

  lemma PlanIsExact(k: int, after: int, before: int, other: int, amountIn: int)
    requires after != 0 && k % after == 0 && k == before * other && after == before + amountIn
    ensures k == after * (k / after)
    ensures amountIn >= 0 && before >= 0 && other >= 0 ==> k / after >= 0
  {
    if amountIn >= 0 && before >= 0 && other >= 0 {
      assert before * other >= 0;
      QuotientNonnegative(k, after);
    }
  }

  lemma QuotientNonnegative(k: int, d: int)
    requires k >= 0 && d > 0
    ensures k / d >= 0
  {
  }

  // ---- The swap command ----

  /** What provePrivateSwap feeds the circuit privately. */
  function SwapWitness(h: Hashes, wal: WalletState, n: WalletNote, p: Plan, amountIn: int, rhoOut: Fe,
                       rhoChange: Fe): SwapPrivate {
    SwapPrivate(wal.ownerSk, Reduce(n.amount), n.rho, PathElements(h, wal.leaves, n.leafIndex),
                BitsOf(n.leafIndex, DEPTH), Reduce(amountIn), Reduce(p.amountOut), rhoOut, rhoChange)
  }

  function CircuitAsset(buyYes: bool): Fe { if buyYes then 1 else 2 }

  function ContractAsset(buyYes: bool): nat { if buyYes then ASSET_YES else ASSET_NO }

  function SwapNullifier(h: Hashes, u: SwapPrivate): Fe {
    Nullifier(h, u.ownerSk, u.rhoIn, Reduce(LeafIndex(u.indices)))
  }

  /** The public inputs it claims, given the root read from the chain. */
  function ProverInputs(h: Hashes, root: Fe, buyYes: bool, p: Plan, u: SwapPrivate): SwapPublic {
    SwapPublic(root, SwapNullifier(h, u),
               Commitment(h, PositionNote(h, CircuitAsset(buyYes), u)), Commitment(h, ChangeNote(h, u)),
               Reduce(p.reserveInBefore), Reduce(p.reserveOutBefore),
               Reduce(p.reserveInAfter), Reduce(p.reserveOutAfter),
               CircuitAsset(buyYes))
  }

  predicate FitsCircuit(p: Plan) {
    && 0 <= p.reserveInBefore < BOUND && 0 <= p.reserveOutBefore < BOUND
    && 0 <= p.reserveInAfter < BOUND && 0 <= p.reserveOutAfter < BOUND
  }

  /** The contract call it submits, with no fee. */
  function SubmittedSwap(h: Hashes, buyYes: bool, p: Plan, u: SwapPrivate): Call
    requires FitsCircuit(p)
  {
    SwapCall(SwapNullifier(h, u),
             Commitment(h, PositionNote(h, CircuitAsset(buyYes), u)), Commitment(h, ChangeNote(h, u)),
             p.reserveInBefore, p.reserveOutBefore, p.reserveInAfter, p.reserveOutAfter, ContractAsset(buyYes), 0)
  }

  // ---- What the wallet knows ----

  /** The note the wallet should hold for a leaf. */
  function View(c: Configuration, i: nat): WalletNote
    requires i < |c.b.notes| && i < |c.s.leaves|
  {
    var n := c.b.notes[i];
    WalletNote(n.asset, n.amount, n.ownerPk, n.rho, i, c.s.leaves[i], i in c.b.spent)
  }

  ghost predicate AllDistinct(leaves: seq<Fe>) {
    forall i, j :: 0 <= i < j < |leaves| ==> leaves[i] != leaves[j]
  }

  /** The wallet is the only one inserting: its mirror is the chain's leaves, and its notes are the notes
      behind them, all its own, with their true indices and spent flags. */
  ghost predicate Mirrors(w: World, c: Configuration, wal: WalletState) {
    && wal.leaves == c.s.leaves && AllDistinct(c.s.leaves)
    && |wal.notes| == |c.b.notes| == |c.s.leaves|
    && (forall i :: 0 <= i < |wal.notes| ==> wal.notes[i] == View(c, i))
    && (forall i :: 0 <= i < |c.b.notes| ==> c.b.notes[i].ownerPk == OwnerPk(w.h, wal.ownerSk))
  }

  /** What a spending command needs to know of a pool anyone may use: the mirror is the chain's leaves, and
      the chosen note is the wallet's own, recorded as the chain has it at its leaf index. */
  ghost predicate Holding(w: World, c: Configuration, wal: WalletState, n: WalletNote) {
    && wal.leaves == c.s.leaves && n.leafIndex < |c.b.notes| && |c.b.notes| == |c.s.leaves|
    && var m := c.b.notes[n.leafIndex];
       n.asset == m.asset && n.amount == m.amount && n.rho == m.rho && m.ownerPk == OwnerPk(w.h, wal.ownerSk)
  }

  // ---- Honest swaps are accepted ----

  /** The swap's numbers as the circuit sees them. */
  lemma PlanMeetsCircuit(h: Hashes, root: Fe, buyYes: bool, amountIn: int, inAmount: int, yes: int, no: int, p: Plan,
                         u: SwapPrivate)
    requires PlanSwap(buyYes, amountIn, inAmount, yes, no) == Some(p) && amountIn >= 0 && yes >= 0 && no >= 0
    requires inAmount < BOUND && FitsCircuit(p)
    requires u.inAmount == inAmount && u.amountIn == Reduce(amountIn) && u.amountOut == Reduce(p.amountOut)
    ensures SwapValues(ProverInputs(h, root, buyYes, p, u), u)
    ensures Reduce(amountIn) == amountIn && Reduce(p.amountOut) == p.amountOut
  {
    hide PlanSwap, SwapNullifier, Commitment;
    SmallResidue(amountIn);
    SmallResidue(p.amountOut);
    SmallResidue(p.reserveInBefore);
    SmallResidue(p.reserveOutBefore);
    SmallResidue(p.reserveInAfter);
    SmallResidue(p.reserveOutAfter);
  }

  lemma SmallResidue(x: int)
    requires 0 <= x < BOUND
    ensures Reduce(x) == x
  {
  }

  /** The path of a wallet note spends it under its position's nullifier. */
  lemma WitnessSpends(w: World, c: Configuration, wal: WalletState, n: WalletNote, u: SwapPrivate)
    requires Holding(w, c, wal, n) && |c.s.leaves| <= Pow2(DEPTH)
    requires u.elements == PathElements(w.h, wal.leaves, n.leafIndex) && u.indices == BitsOf(n.leafIndex, DEPTH)
    requires u.ownerSk == wal.ownerSk && u.rhoIn == n.rho
    ensures Spends(w.h, DEPTH, CurrentRoot(w.h, c.s), SwapNullifier(w.h, u), c.s.leaves[n.leafIndex],
                   u.ownerSk, u.rhoIn, u.elements, u.indices)
    ensures SwapNullifier(w.h, u) == NullifierAt(w.h, c.b.notes, n.leafIndex, wal.ownerSk)
  {
    hide Node, Ancestor, Fold, LeafIndex, Pow2, BitsOf, PathElements;
    var i := n.leafIndex;
    PathIsPath(w.h, wal.leaves, i);
    PathReachesRoot(TreeOf(w.h), c.s.leaves, i, u.elements, u.indices);
    SlotWithinCapacity(i);
    assert LeafIndex(u.indices) == i;
  }

  lemma NoteInRange(w: World, c: Configuration, i: nat)
    requires Inv(w, c.s, c.b) && i < |c.b.notes|
    ensures c.b.notes[i].amount < BOUND && c.s.leaves[i] == Commitment(w.h, c.b.notes[i])
    ensures c.s.yes >= 0 && c.s.no >= 0
  {
    hide TreeQueried, SpendsOwned, NullifiersExact, MoneyConserved, Commitment;
  }

  lemma InputsAgree(h: Hashes, s: State, buyYes: bool, p: Plan, u: SwapPrivate)
    requires FitsCircuit(p)
    ensures ProverInputs(h, CurrentRoot(h, s), buyYes, p, u) == SwapInputs(h, s, SubmittedSwap(h, buyYes, p, u))
  {
    hide CurrentRoot, SwapNullifier, Commitment;
    SmallResidue(p.reserveInBefore);
    SmallResidue(p.reserveOutBefore);
    SmallResidue(p.reserveInAfter);
    SmallResidue(p.reserveOutAfter);
    EncodesItself(p.reserveInBefore);
    EncodesItself(p.reserveOutBefore);
    EncodesItself(p.reserveInAfter);
    EncodesItself(p.reserveOutAfter);
  }

  lemma WitnessMeans(h: Hashes, root: Fe, buyYes: bool, p: Plan, u: SwapPrivate, note: Fe)
    requires SwapValues(ProverInputs(h, root, buyYes, p, u), u) && note == SwapNote(h, u)
    requires Spends(h, DEPTH, root, SwapNullifier(h, u), note, u.ownerSk, u.rhoIn, u.elements, u.indices)
    ensures SwapMeans(h, DEPTH, ProverInputs(h, root, buyYes, p, u), u)
  {
    hide Spends, SwapNullifier, LeafIndex;
    DifferenceInRange(u.inAmount, u.amountIn);
  }

  lemma GuardsPass(h: Hashes, self: Address, s: State, buyYes: bool, amountIn: int, inAmount: int, p: Plan,
                   u: SwapPrivate)
    requires PlanSwap(buyYes, amountIn, inAmount, s.yes, s.no) == Some(p) && FitsCircuit(p) && s.yes >= 0 && s.no >= 0
    requires amountIn >= 0 && s.config.Some? && |s.leaves| <= Pow2(DEPTH) && SwapNullifier(h, u) !in s.nullifiers
    ensures SwapGuards(s, SubmittedSwap(h, buyYes, p, u)) == None
    ensures Step(h, self, s, SubmittedSwap(h, buyYes, p, u), {}, true).Ok?
  {
    DepthFits();
    hide PlanSwap, SwapNullifier, Commitment, Pow2;
  }

  /** The witness the wallet builds means a swap to the circuit. */
  lemma HonestWitnessMeans(w: World, c: Configuration, wal: WalletState, n: WalletNote, buyYes: bool, amountIn: int,
                           p: Plan, u: SwapPrivate)
    requires Inv(w, c.s, c.b) && Holding(w, c, wal, n) && |c.s.leaves| <= Pow2(DEPTH) && n.asset == 0
    requires amountIn >= 0 && PlanSwap(buyYes, amountIn, n.amount, c.s.yes, c.s.no) == Some(p) && FitsCircuit(p)
    requires u.elements == PathElements(w.h, wal.leaves, n.leafIndex) && u.indices == BitsOf(n.leafIndex, DEPTH)
    requires u.ownerSk == wal.ownerSk && u.rhoIn == n.rho && u.inAmount == n.amount
    requires u.amountIn == Reduce(amountIn) && u.amountOut == Reduce(p.amountOut)
    ensures SwapMeans(w.h, DEPTH, ProverInputs(w.h, CurrentRoot(w.h, c.s), buyYes, p, u), u)
  {
    hide Inv, PlanSwap, SwapNullifier, CurrentRoot, PathElements, BitsOf, SwapMeans, Pow2, Spends, SwapValues;
    hide FitsCircuit, NullifierAt;
    var root := CurrentRoot(w.h, c.s);
    NoteInRange(w, c, n.leafIndex);
    PlanMeetsCircuit(w.h, root, buyYes, amountIn, n.amount, c.s.yes, c.s.no, p, u);
    WitnessSpends(w, c, wal, n, u);
    WitnessMeans(w.h, root, buyYes, p, u, c.s.leaves[n.leafIndex]);
  }

  /** The witness of a wallet note. */
  lemma WitnessFields(w: World, c: Configuration, wal: WalletState, n: WalletNote, p: Plan, amountIn: int, rhoOut: Fe,
                      rhoChange: Fe)
    requires Inv(w, c.s, c.b) && Holding(w, c, wal, n)
    ensures var u := SwapWitness(w.h, wal, n, p, amountIn, rhoOut, rhoChange);
      && u.elements == PathElements(w.h, wal.leaves, n.leafIndex) && u.indices == BitsOf(n.leafIndex, DEPTH)
      && u.ownerSk == wal.ownerSk && u.rhoIn == n.rho && u.inAmount == n.amount
      && u.amountIn == Reduce(amountIn) && u.amountOut == Reduce(p.amountOut)
      && c.s.yes >= 0 && c.s.no >= 0
  {
    hide Inv, PathElements, BitsOf;
    NoteInRange(w, c, n.leafIndex);
    SmallResidue(n.amount);
  }

  lemma FreshNullifier(w: World, c: Configuration, wal: WalletState, n: WalletNote, u: SwapPrivate)
    requires Ideal(w) && Inv(w, c.s, c.b) && Holding(w, c, wal, n) && |c.s.leaves| <= Pow2(DEPTH)
    requires n.leafIndex !in c.b.spent && NullifierInput(c.b.notes, n.leafIndex, wal.ownerSk) in w.q.q3
    requires u.elements == PathElements(w.h, wal.leaves, n.leafIndex) && u.indices == BitsOf(n.leafIndex, DEPTH)
    requires u.ownerSk == wal.ownerSk && u.rhoIn == n.rho
    ensures SwapNullifier(w.h, u) !in c.s.nullifiers
  {
    hide Inv, Ideal, SwapNullifier, CurrentRoot, PathElements, BitsOf, NullifierAt, NullifierInput, Pow2, Spends;
    WitnessSpends(w, c, wal, n, u);
    UnspentIsFresh(w, c.s, c.b, n.leafIndex, wal.ownerSk);
  }

  /** Whenever the swap command does not throw, amounts and reserves are below 2^64, the mirror is the
      chain's and the note is unspent there - whoever else uses the pool: the wallet's witness meets every
      constraint, its nine public values are the ones the contract rebuilds, and every guard passes. */
  lemma HonestSwapAccepted(w: World, c: Configuration, wal: WalletState, n: WalletNote, buyYes: bool, amountIn: int,
                           rhoOut: Fe, rhoChange: Fe, p: Plan)
    requires Holding(w, c, wal, n) && NullifierInput(c.b.notes, n.leafIndex, wal.ownerSk) in w.q.q3
    requires n.asset == 0 && n.leafIndex !in c.b.spent
    requires c.s.config.Some? && |c.s.leaves| <= Pow2(DEPTH) && FitsCircuit(p)
    requires amountIn >= 0 && PlanSwap(buyYes, amountIn, n.amount, c.s.yes, c.s.no) == Some(p)
    requires NoZeroDivisors() && Ideal(w) && Inv(w, c.s, c.b)
    ensures var u := SwapWitness(w.h, wal, n, p, amountIn, rhoOut, rhoChange);
      var call := SubmittedSwap(w.h, buyYes, p, u);
      && ProverInputs(w.h, CurrentRoot(w.h, c.s), buyYes, p, u) == SwapInputs(w.h, c.s, call)
      && (exists t :: Circuits.PrivateSwap(w.h, DEPTH, SwapInputs(w.h, c.s, call), u, t))
      && SwapGuards(c.s, call) == None && Step(w.h, w.self, c.s, call, {}, true).Ok?
  {
    hide Inv, Ideal, Holding, PlanSwap, SwapNullifier, CurrentRoot, PathElements, BitsOf, NullifierInput, SwapMeans;
    hide SwapWitness;
    hide Pow2, SwapGuards, Step, FitsCircuit, Circuits.PrivateSwap, ProverInputs, SwapInputs, SignalsOf, SubmittedSwap;
    HoldingInRange(w, c, wal, n);
    WitnessFields(w, c, wal, n, p, amountIn, rhoOut, rhoChange);
    var u := SwapWitness(w.h, wal, n, p, amountIn, rhoOut, rhoChange);
    HonestWitnessMeans(w, c, wal, n, buyYes, amountIn, p, u);
    FreshNullifier(w, c, wal, n, u);
    InputsAgree(w.h, c.s, buyYes, p, u);
    CapacityFits();
    SwapComplete(w.h, DEPTH, ProverInputs(w.h, CurrentRoot(w.h, c.s), buyYes, p, u), u);
    GuardsPass(w.h, w.self, c.s, buyYes, amountIn, n.amount, p, u);
  }

  lemma HoldingInRange(w: World, c: Configuration, wal: WalletState, n: WalletNote)
    requires Holding(w, c, wal, n)
    ensures n.leafIndex < |c.b.notes| == |c.s.leaves|
  {
  }

  // ---- Honest deposits are accepted ----

  /** A deposit of any positive amount below 2^64 by a payer who signs and can pay, under any key and
      randomness and a reference that is not denied: the note has a proof, and the pool takes the amount
      from the payer and appends the note's hash. */
  lemma HonestShieldAccepted(h: Hashes, self: Address, s: State, from: Address, amount: int, ownerSk: Fe, rho: Fe,
                             ref: Fe, auth: set<Address>)
    requires NoZeroDivisors() && s.config.Some? && from in auth && ref !in s.denied
    requires 0 < amount < 0x1_0000_0000_0000_0000 <= R && Balance(s.balances, from) >= amount
    requires |s.leaves| + 1 < 0x1_0000_0000
    ensures var leaf := h.h4(0, amount, h.h1(ownerSk), rho);
      var r := Step(h, self, s, ShieldCall(from, amount, leaf, ref), auth, true);
      && (exists bits :: Circuits.Shield(h, I128ToFr(amount), leaf, h.h1(ownerSk), rho, bits))
      && r.Ok? && r.value.leaves == s.leaves + [leaf] && Transferred(s, r.value, from, self, amount)
  {
    hide Circuits.Shield, Transferred, Step, Reduce;
    var pk, leaf := h.h1(ownerSk), h.h4(0, amount, h.h1(ownerSk), rho);
    EncodesItself(amount);
    ShieldExact(h, amount, leaf, pk, rho);
    ShieldAnswer(h, self, s, from, amount, leaf, ref, auth, true);
    var r := Step(h, self, s, ShieldCall(from, amount, leaf, ref), auth, true);
    ShieldEffect(h, self, s, from, amount, leaf, ref, auth, true, r.value);
  }

  // ---- Honest withdrawals are accepted ----

  /** What proveUnshield feeds the circuit privately. */
  function UnshieldWitness(h: Hashes, wal: WalletState, n: WalletNote): UnshieldPrivate {
    UnshieldPrivate(wal.ownerSk, n.rho, PathElements(h, wal.leaves, n.leafIndex), BitsOf(n.leafIndex, DEPTH))
  }

  /** The withdrawal of a whole note at the current root, without fee. */
  function SubmittedUnshield(h: Hashes, root: Fe, n: WalletNote, u: UnshieldPrivate, recipient: Address,
                             field: Fe): Call
    requires n.amount < BOUND
  {
    UnshieldCall(root, Nullifier(h, u.ownerSk, u.rho, Reduce(LeafIndex(u.indices))), n.amount, recipient, field, 0)
  }

  /** The submitted call and witness are those of the owner's withdrawal at the current root. */
  lemma HonestUnshieldIs(w: World, c: Configuration, wal: WalletState, n: WalletNote, recipient: Address, field: Fe)
    requires Holding(w, c, wal, n) && |c.s.leaves| <= Pow2(DEPTH) && n.amount < BOUND
    ensures n.leafIndex < |c.b.notes| == |c.s.leaves| && InTree(|c.s.leaves|, n.leafIndex)
    ensures var u := UnshieldWitness(w.h, wal, n);
      WithdrawalEvent(w.h, c.s, c.b, |c.s.leaves|, n.leafIndex, wal.ownerSk, recipient, field, 0)
      == Event(SubmittedUnshield(w.h, CurrentRoot(w.h, c.s), n, u, recipient, field), {}, true, UnshieldSecrets(u))
  {
    hide Root, PathElements, BitsOf, Pow2, LeafIndex, Slot, Ancestor;
    var i := n.leafIndex;
    assert c.s.leaves[..|c.s.leaves|] == c.s.leaves;
    AncestorBelowCapacity(i, DEPTH);
    AncestorBelowCapacity(|c.s.leaves| - 1, DEPTH);
    PathIndex(i, BitsOf(i, DEPTH));
    SlotWithinCapacity(i);
  }

  /** Whenever the unshield command does not throw, the mirror is the chain's, the note is unspent there and
      the pool is solvent: the command has a witness, the contract accepts the withdrawal, and the recipient
      gets the whole note. */
  lemma HonestUnshieldAccepted(w: World, c: Configuration, wal: WalletState, n: WalletNote, recipient: Address,
                               field: Fe)
    requires NoZeroDivisors() && Ideal(w) && Inv(w, c.s, c.b) && Solvent(w, c) && Holding(w, c, wal, n)
    requires c.s.config.Some? && |c.s.leaves| <= 256
    requires n.asset == 0 && 0 < n.amount < 0x1_0000_0000_0000_0000 && n.leafIndex !in c.b.spent
    requires wal.ownerSk in w.q.q1 && NullifierInput(c.b.notes, n.leafIndex, wal.ownerSk) in w.q.q3
    ensures var u := UnshieldWitness(w.h, wal, n);
      var call := SubmittedUnshield(w.h, CurrentRoot(w.h, c.s), n, u, recipient, field);
      var r := Step(w.h, w.self, c.s, call, {}, true);
      && (exists t :: Circuits.Unshield(w.h, DEPTH, UnshieldInputs(call), u, t))
      && r.Ok? && Transferred(c.s, r.value, w.self, recipient, n.amount)
  {
    hide Inv, Ideal, Solvent, Holding, NullifierInput, Pow2, Step, Circuits.Unshield, CurrentRoot, SubmittedUnshield;
    hide UnshieldWitness, Transferred;
    DepthFits();
    HonestUnshieldProven(w, c, wal, n, recipient, field);
    HonestUnshieldPays(w, c, wal, n, recipient, field);
  }

  lemma HonestUnshieldProven(w: World, c: Configuration, wal: WalletState, n: WalletNote, recipient: Address, field: Fe)
    requires NoZeroDivisors() && Ideal(w) && Inv(w, c.s, c.b) && Solvent(w, c) && Holding(w, c, wal, n)
    requires c.s.config.Some? && |c.s.leaves| <= Pow2(DEPTH)
    requires n.asset == 0 && 0 < n.amount < BOUND && n.leafIndex !in c.b.spent
    requires wal.ownerSk in w.q.q1 && NullifierInput(c.b.notes, n.leafIndex, wal.ownerSk) in w.q.q3
    ensures var u := UnshieldWitness(w.h, wal, n);
      var call := SubmittedUnshield(w.h, CurrentRoot(w.h, c.s), n, u, recipient, field);
      && (exists t :: Circuits.Unshield(w.h, DEPTH, UnshieldInputs(call), u, t))
      && Step(w.h, w.self, c.s, call, {}, true).Ok?
  {
    hide Inv, Ideal, Solvent, PathElements, BitsOf, NullifierInput, NullifierAt, Pow2, Step, Circuits.Unshield;
    hide LeafIndex, CurrentRoot, Legal, Sound, Recurs;
    HonestUnshieldIs(w, c, wal, n, recipient, field);
    OwnerWithdraws(w, c, |c.s.leaves|, n.leafIndex, wal.ownerSk, recipient, field, 0);
    WithdrawalProvable(w, c.s, c.b, |c.s.leaves|, n.leafIndex, wal.ownerSk, recipient, field, 0);
    var e := WithdrawalEvent(w.h, c.s, c.b, |c.s.leaves|, n.leafIndex, wal.ownerSk, recipient, field, 0);
    WithdrawalSound(w, c.s, e);
  }

  lemma HonestUnshieldPays(w: World, c: Configuration, wal: WalletState, n: WalletNote, recipient: Address, field: Fe)
    requires Holding(w, c, wal, n) && |c.s.leaves| <= Pow2(DEPTH) && n.amount < BOUND
    ensures var u := UnshieldWitness(w.h, wal, n);
      var call := SubmittedUnshield(w.h, CurrentRoot(w.h, c.s), n, u, recipient, field);
      var r := Step(w.h, w.self, c.s, call, {}, true);
      r.Ok? ==> Transferred(c.s, r.value, w.self, recipient, n.amount)
  {
    hide PathElements, BitsOf, Pow2, Step, LeafIndex, CurrentRoot, Transferred, SubmittedUnshield, WithdrawalEvent;
    HonestUnshieldIs(w, c, wal, n, recipient, field);
    RecipientIsPaid(w, c.s, c.b, |c.s.leaves|, n.leafIndex, wal.ownerSk, recipient, field, 0);
  }

  lemma CapacityFits()
    ensures Pow2(DEPTH) <= R
  {
    DepthFits();
  }
}
