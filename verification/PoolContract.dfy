/** The contract object of contracts/shielded_pool/src/lib.rs. Its entrypoints update storage in place;
    each is proved to be one step of the ledger, including the error it reports and the state a panic
    leaves, which is the old one. */
module PoolContract {
  import opened ScalarField
  import opened Merkle
  import opened Outcomes
  import opened Circuits
  import opened Ledger
  import opened Bookkeeping
  import opened Bytes
  import PoolTree

  // ---- Scalars as bytes ----

  /** n zero bytes. */
  function Zeros(n: nat): (s: seq<Byte>)
    ensures |s| == n
  {
    if n == 0 then [] else Zeros(n - 1) + [0]
  }

  /** i128_to_fr_be: the 16 two's-complement bytes in the low half of a 32-byte scalar. */
  function I128ToFrBe(v: I128): seq<Byte> {
    Zeros(16) + ToBytes(v % 0x1_0000_0000_0000_0000_0000_0000_0000_0000, 16)
  }

  /** u32_to_fr_be. */
  function U32ToFrBe(v: nat): seq<Byte> {
    Zeros(28) + ToBytes(v, 4)
  }

  lemma {:induction false} ZerosVanish(n: nat)
    ensures BigEndian(Zeros(n)) == 0
  {
    if n > 0 {
      ZerosVanish(n - 1);
      assert Zeros(n)[..n - 1] == Zeros(n - 1);
    }
  }

  /** The encodings are 32 bytes long and stand for the field elements the ledger uses. */
  lemma ScalarEncodings(v: I128, u: nat)
    requires u < 0x1_0000_0000
    ensures |I128ToFrBe(v)| == 32 && BigEndian(I128ToFrBe(v)) == I128ToFr(v)
    ensures BigEndian(I128ToFrBe(v)) == if v >= 0 then v else v + 0x1_0000_0000_0000_0000_0000_0000_0000_0000
    ensures |U32ToFrBe(u)| == 32 && BigEndian(U32ToFrBe(u)) == u
  {
    hide BigEndian, ToBytes, Zeros;
    var x := v % 0x1_0000_0000_0000_0000_0000_0000_0000_0000;
    Pow256Values();
    assert Pow256(4) == 0x1_0000_0000;
    ZerosVanish(16);
    ZerosVanish(28);
    BigEndianOfToBytes(x, 16);
    BigEndianOfToBytes(u, 4);
    BigEndianConcat(Zeros(16), ToBytes(x, 16));
    BigEndianConcat(Zeros(28), ToBytes(u, 4));
  }

  // ---- The verifier ----

  datatype Circuit = ShieldCircuit | UnshieldCircuit | SwapCircuit

  datatype Proof = Proof(a: seq<Byte>, b: seq<Byte>, c: seq<Byte>)

  type Verifier = (Circuit, Proof, seq<Fe>) -> bool

  function UnshieldVector(p: UnshieldPublic): seq<Fe> {
    [p.root, p.nullifier, p.withdrawAmount, p.recipient]
  }

  function SwapVector(p: SwapPublic): seq<Fe> {
    [p.root, p.nullifierIn, p.outCommitment, p.changeCommitment,
     p.reserveInBefore, p.reserveOutBefore, p.reserveInAfter, p.reserveOutAfter, p.assetOut]
  }

  /** The verifier's answer on the inputs the contract builds for a call. */
  function Verified(verifier: Verifier, h: Hashes, s: State, c: Call, proof: Proof): bool {
    match c
    case ShieldCall(_, amount, commitment, _) => verifier(ShieldCircuit, proof, [I128ToFr(amount), commitment])
    case UnshieldCall(_, _, _, _, _, _) => verifier(UnshieldCircuit, proof, UnshieldVector(UnshieldInputs(c)))
    case SwapCall(_, _, _, _, _, _, _, assetOut, _) =>
      assetOut <= 1 && verifier(SwapCircuit, proof, SwapVector(SwapInputs(h, s, c)))
    case _ => false
  }

  /** The 128-bit two's complement of a signed amount. */
  function TwosComplement(v: I128): Fe { if v >= 0 then v else v + 0x1_0000_0000_0000_0000_0000_0000_0000_0000 }

  /** Which circuit each spending or depositing call is verified for, and on which public inputs in which order. */
  lemma InputsPresented(verifier: Verifier, h: Hashes, s: State, proof: Proof)
    ensures forall from, amount: I128, commitment: Fe, ref: Fe ::
      Verified(verifier, h, s, ShieldCall(from, amount, commitment, ref), proof)
      == verifier(ShieldCircuit, proof, [TwosComplement(amount), commitment])
    ensures forall root: Fe, nullifier: Fe, amount: I128, recipient, field: Fe, fee: I128 ::
      Verified(verifier, h, s, UnshieldCall(root, nullifier, amount, recipient, field, fee), proof)
      == verifier(UnshieldCircuit, proof, [root, nullifier, TwosComplement(amount), field])
    ensures forall nullifier: Fe, out: Fe, change: Fe, inBefore: I128, outBefore: I128, inAfter: I128, outAfter: I128,
                   asset: nat, fee: I128 ::
      asset <= 1 ==>
        Verified(verifier, h, s,
                 SwapCall(nullifier, out, change, inBefore, outBefore, inAfter, outAfter, asset, fee), proof)
        == verifier(SwapCircuit, proof,
                    [Root(TreeOf(h), 8, s.leaves), nullifier, out, change, TwosComplement(inBefore),
                     TwosComplement(outBefore), TwosComplement(inAfter), TwosComplement(outAfter),
                     if asset == 0 then 1 else 2])
  {
    hide I128ToFr, TwosComplement, Root;
    forall v: I128
      ensures I128ToFr(v) == TwosComplement(v)
    {
      LowHalf(v);
    }
  }

  lemma LowHalf(v: I128)
    ensures I128ToFr(v) == TwosComplement(v)
  {
  }

  /** An ideal verifier accepts only public inputs for which the circuit has a witness. */
  ghost predicate IdealVerifier(h: Hashes, verifier: Verifier) {
    && (forall proof, amount: Fe, commitment: Fe :: verifier(ShieldCircuit, proof, [amount, commitment]) ==>
         exists ownerPk, rho, bits :: Circuits.Shield(h, amount, commitment, ownerPk, rho, bits))
    && (forall proof, p :: verifier(UnshieldCircuit, proof, UnshieldVector(p)) ==>
         exists u, t :: Circuits.Unshield(h, DEPTH, p, u, t))
    && (forall proof, p :: verifier(SwapCircuit, proof, SwapVector(p)) ==>
         exists u, t :: Circuits.PrivateSwap(h, DEPTH, p, u, t))
  }

  /** Acceptance exactly when there is a witness. */
  ghost predicate HasWitness(h: Hashes, circuit: Circuit, inputs: seq<Fe>) {
    match circuit
    case ShieldCircuit =>
      |inputs| == 2 && exists ownerPk, rho, bits :: Circuits.Shield(h, inputs[0], inputs[1], ownerPk, rho, bits)
    case UnshieldCircuit =>
      && |inputs| == 4
      && exists u, t :: Circuits.Unshield(h, DEPTH, UnshieldPublic(inputs[0], inputs[1], inputs[2], inputs[3]), u, t)
    case SwapCircuit =>
      && |inputs| == 9
      && var p := SwapPublic(inputs[0], inputs[1], inputs[2], inputs[3], inputs[4], inputs[5], inputs[6], inputs[7],
                             inputs[8]);
         exists u, t :: Circuits.PrivateSwap(h, DEPTH, p, u, t)
  }

  /** Such a verifier is ideal, so ideal verifiers need not reject anything provable. */
  lemma ExactVerifierIsIdeal(h: Hashes) returns (verifier: Verifier)
    ensures IdealVerifier(h, verifier)
    ensures forall circuit, proof, inputs :: verifier(circuit, proof, inputs) <==> HasWitness(h, circuit, inputs)
  {
    hide Circuits.Shield, Circuits.Unshield, Circuits.PrivateSwap;
    verifier := (circuit, proof, inputs) => HasWitness(h, circuit, inputs);
  }

  /** With an ideal verifier every call the contract makes is an event of the run model. */
  lemma VerifiedIsSound(w: World, verifier: Verifier, s: State, c: Call, proof: Proof, auth: set<Address>)
    returns (secrets: Secrets)
    requires IdealVerifier(w.h, verifier)
    ensures Sound(w, s, Event(c, auth, Verified(verifier, w.h, s, c, proof), secrets))
  {
    secrets := NoSecrets;
    if Verified(verifier, w.h, s, c, proof) {
      match c
      case ShieldCall(_, amount, commitment, _) =>
        var ownerPk, rho, bits :| Circuits.Shield(w.h, I128ToFr(amount), commitment, ownerPk, rho, bits);
        secrets := ShieldSecrets(ownerPk, rho);
      case UnshieldCall(_, _, _, _, _, _) =>
        var u, t :| Circuits.Unshield(w.h, DEPTH, UnshieldInputs(c), u, t);
        secrets := UnshieldSecrets(u);
      case SwapCall(_, _, _, _, _, _, _, _, _) =>
        var u, t :| Circuits.PrivateSwap(w.h, DEPTH, SwapInputs(w.h, s, c), u, t);
        secrets := SwapSecrets(u);
      case _ =>
    }
  }

  // ---- The token ----

  class Token {
    var balances: map<Address, nat>

    constructor (balances: map<Address, nat>)
      ensures this.balances == balances
    {
      this.balances := balances;
    }

    /** Moves tokens, or reports that the payer is short and moves none. */
    method Transfer(payer: Address, payee: Address, sum: nat) returns (ok: bool)
      modifies this
      ensures ok == Pay(old(balances), payer, payee, sum).Some?
      ensures balances == if ok then Pay(old(balances), payer, payee, sum).value else old(balances)
    {
      ok := Balance(balances, payer) >= sum;
      if ok {
        balances := balances[payer := Balance(balances, payer) - sum];
        balances := balances[payee := Balance(balances, payee) + sum];
      }
    }
  }

  // ---- The contract ----

  class ShieldedPool {
    const h: Hashes
    const self: Address
    const verifier: Verifier
    const tree: PoolTree.Tree<Fe>
    const token: Token
    var config: Option<Config>
    var nullifiers: set<Fe>
    var reserveYes: I128
    var reserveNo: I128
    var fees: I128
    var denied: set<Fe>

    ghost predicate Valid()
      reads this, tree
    {
      && tree.scheme == TreeOf(h) && tree.depth == DEPTH
      && (config.Some? ==> tree.Valid())
    }

    /** Storage as a ledger state. */
    ghost function Abstract(): State
      reads this, tree, token
    {
      State(config, if config.None? then [] else tree.leaves, nullifiers, reserveYes, reserveNo, fees, denied,
            token.balances)
    }

    constructor (h: Hashes, self: Address, verifier: Verifier, token: Token)
      ensures Valid() && this.h == h && this.self == self && this.verifier == verifier && this.token == token
      ensures fresh(tree)
      ensures Abstract() == State(None, [], {}, 0, 0, 0, {}, token.balances)
    {
      this.h, this.self, this.verifier, this.token := h, self, verifier, token;
      tree := new PoolTree.Tree(TreeOf(h), DEPTH);
      config, nullifiers, reserveYes, reserveNo, fees, denied := None, {}, 0, 0, 0, {};
    }

    method Init(cfg: Config) returns (r: Result<()>)
      requires Valid()
      modifies this, tree
      ensures Valid()
      ensures var step := StepInit(old(Abstract()), Ledger.Init(cfg));
        match step
        case Ok(s) => r == Ok(()) && Abstract() == s
        case Err(e) => r == Err(e) && Abstract() == old(Abstract())
    {
      if config.Some? {
        return Err(AlreadyInitialized);
      }
      config := Some(cfg);
      reserveYes, reserveNo, fees := 0, 0, 0;
      tree.Init();
      r := Ok(());
    }

    method RequireAdmin(auth: set<Address>) returns (e: Option<Error>)
      ensures e == AdminError(Abstract(), auth)
    {
      if config.None? {
        return Some(NotInitialized);
      }
      if config.value.admin !in auth {
        return Some(Unauthorized);
      }
      e := None;
    }

    method SeedReserves(auth: set<Address>, yes: I128, no: I128) returns (r: Result<()>)
      requires Valid()
      modifies this
      ensures Valid()
      ensures var step := StepSeed(old(Abstract()), Ledger.SeedReserves(yes, no), auth);
        match step
        case Ok(s) => r == Ok(()) && Abstract() == s
        case Err(e) => r == Err(e) && Abstract() == old(Abstract())
    {
      var e := RequireAdmin(auth);
      if e.Some? {
        return Err(e.value);
      }
      if yes < 0 || no < 0 {
        return Err(BadReserves);
      }
      reserveYes, reserveNo := yes, no;
      r := Ok(());
    }

    method SetDenied(auth: set<Address>, ref: Fe, deny: bool) returns (r: Result<()>)
      requires Valid()
      modifies this
      ensures Valid()
      ensures var step := StepDenied(old(Abstract()), Ledger.SetDenied(ref, deny), auth);
        match step
        case Ok(s) => r == Ok(()) && Abstract() == s
        case Err(e) => r == Err(e) && Abstract() == old(Abstract())
    {
      var e := RequireAdmin(auth);
      if e.Some? {
        return Err(e.value);
      }
      denied := if deny then denied + {ref} else denied - {ref};
      r := Ok(());
    }

    /** Pays all accrued fees out and reports how much that was. */
    method WithdrawFees(auth: set<Address>, to: Address) returns (r: Result<I128>)
      requires Valid()
      modifies this, token
      ensures Valid()
      ensures var step := StepWithdraw(self, old(Abstract()), Ledger.WithdrawFees(to), auth);
        match step
        case Ok(s) => r == Ok(old(fees)) && Abstract() == s
        case Err(e) => r == Err(e) && Abstract() == old(Abstract())
    {
      hide Pay, Balance;
      var e := RequireAdmin(auth);
      if e.Some? {
        return Err(e.value);
      }
      var due := fees;
      if due > 0 {
        var paid := token.Transfer(self, to, due);
        if !paid {
          return Err(TransferFailed);
        }
        fees := 0;
      }
      r := Ok(due);
    }

    /** Deposits collateral behind a commitment and returns the new root. */
    method Shield(auth: set<Address>, proof: Proof, from: Address, amount: I128, commitment: Fe, screeningRef: Fe)
      returns (r: Result<Fe>)
      requires Valid()
      modifies this, tree, token
      ensures Valid()
      ensures var c := ShieldCall(from, amount, commitment, screeningRef);
        match StepShield(self, old(Abstract()), c, auth, Verified(verifier, h, old(Abstract()), c, proof))
        case Ok(s) => Abstract() == s && r == Ok(CurrentRoot(h, s))
        case Err(e) => r == Err(e) && Abstract() == old(Abstract())
    {
      if from !in auth {
        return Err(Unauthorized);
      }
      if amount <= 0 {
        return Err(AmountNotPositive);
      }
      if screeningRef in denied {
        return Err(ScreeningDenied);
      }
      if config.None? {
        return Err(NotInitialized);
      }
      if !verifier(ShieldCircuit, proof, [I128ToFr(amount), commitment]) {
        return Err(ProofInvalid);
      }
      if Balance(token.balances, from) < amount {
        return Err(TransferFailed);
      }
      // A panic in the tree undoes the transfer, so its one cause is looked for first.
      if tree.nextIndex + 1 >= PoolTree.U32_LIMIT {
        return Err(Overflow);
      }
      var paid := token.Transfer(from, self, amount);
      var inserted := tree.Insert(commitment);
      r := Ok(inserted.value.0);
    }

    /** Whether accruing this fee would overflow, which panics and undoes the call. */
    predicate FeeOverflows(fee: I128)
      reads this
    {
      fee > 0 && fees + fee >= I128_LIMIT
    }

    method AddFee(fee: I128)
      requires !FeeOverflows(fee)
      modifies this`fees
      ensures fees == if fee > 0 then old(fees) + fee else old(fees)
    {
      if fee > 0 {
        fees := fees + fee;
      }
    }

    /** Before init no root is known. */
    method IsKnownRoot(root: Fe) returns (known: bool)
      requires Valid()
      ensures known <==> root in Known(h, Abstract())
    {
      if config.None? {
        return false;
      }
      known := root in tree.knownRoots;
    }

    /** Spends a note at any root there has been and pays it out, less the fee. */
    method Unshield(proof: Proof, root: Fe, nullifier: Fe, withdrawAmount: I128, recipient: Address,
                    recipientField: Fe, fee: I128)
      returns (r: Result<()>)
      requires Valid()
      modifies this, token
      ensures Valid()
      ensures var c := UnshieldCall(root, nullifier, withdrawAmount, recipient, recipientField, fee);
        match StepUnshield(h, self, old(Abstract()), c, Verified(verifier, h, old(Abstract()), c, proof))
        case Ok(s) => Abstract() == s && r == Ok(())
        case Err(e) => r == Err(e) && Abstract() == old(Abstract())
    {
      hide PoolTree.KnownRoots, Root, Balance;
      if withdrawAmount <= 0 {
        return Err(AmountNotPositive);
      }
      if fee < 0 || fee > withdrawAmount {
        return Err(BadFee);
      }
      var known := IsKnownRoot(root);
      if !known {
        return Err(UnknownRoot);
      }
      if nullifier in nullifiers {
        return Err(NullifierUsed);
      }
      if config.None? {
        return Err(NotInitialized);
      }
      if !verifier(UnshieldCircuit, proof, [root, nullifier, I128ToFr(withdrawAmount), recipientField]) {
        return Err(ProofInvalid);
      }
      var payout := withdrawAmount - fee;
      // A panic below undoes everything, so the causes are looked for before anything is written.
      if payout > 0 && Balance(token.balances, self) < payout {
        return Err(TransferFailed);
      }
      if FeeOverflows(fee) {
        return Err(Overflow);
      }
      nullifiers := nullifiers + {nullifier};
      if payout > 0 {
        var paid := token.Transfer(self, recipient, payout);
      }
      AddFee(fee);
      r := Ok(());
    }

    /** Spends a note against the reserves and mints the position note and the change note. */
    method PrivateSwap(proof: Proof, nullifierIn: Fe, outCommitment: Fe, changeCommitment: Fe,
                       reserveInBefore: I128, reserveOutBefore: I128, reserveInAfter: I128, reserveOutAfter: I128,
                       assetOut: nat, fee: I128)
      returns (r: Result<Fe>)
      requires Valid()
      modifies this, tree
      ensures Valid()
      ensures var c := SwapCall(nullifierIn, outCommitment, changeCommitment,
                                reserveInBefore, reserveOutBefore, reserveInAfter, reserveOutAfter, assetOut, fee);
        match StepSwap(old(Abstract()), c, Verified(verifier, h, old(Abstract()), c, proof))
        case Ok(s) => Abstract() == s && r == Ok(CurrentRoot(h, s))
        case Err(e) => r == Err(e) && Abstract() == old(Abstract())
    {
      hide PoolTree.KnownRoots, SwapGuards, SwapEffect, Verified, CurrentRoot;
      var c := SwapCall(nullifierIn, outCommitment, changeCommitment,
                        reserveInBefore, reserveOutBefore, reserveInAfter, reserveOutAfter, assetOut, fee);
      var e := CheckSwap(c);
      if e.Some? {
        return Err(e.value);
      }
      var proven := CheckSwapProof(c, proof);
      if !proven {
        return Err(ProofInvalid);
      }
      if tree.nextIndex + 2 >= PoolTree.U32_LIMIT || FeeOverflows(fee) {
        EffectFees(Abstract(), c);
        return Err(Overflow);
      }
      r := ApplySwap(c);
    }

    lemma EffectFees(s: State, c: Call)
      requires c.SwapCall?
      ensures SwapEffect(s, c).fees == s.fees
    {
    }

    method CheckSwapProof(c: Call, proof: Proof) returns (ok: bool)
      requires Valid() && c.SwapCall? && c.assetOut <= 1 && config.Some?
      ensures ok == Verified(verifier, h, Abstract(), c, proof)
    {
      hide PoolTree.KnownRoots, Root;
      ok := verifier(SwapCircuit, proof,
                     [tree.root, c.nullifierIn, c.outCommitment, c.changeCommitment,
                      I128ToFr(c.reserveInBefore), I128ToFr(c.reserveOutBefore),
                      I128ToFr(c.reserveInAfter), I128ToFr(c.reserveOutAfter), c.assetOut + 1]);
    }

    method CheckSwap(c: Call) returns (e: Option<Error>)
      requires c.SwapCall?
      ensures e == SwapGuards(Abstract(), c)
      ensures e.None? ==> c.assetOut <= 1 && config.Some?
    {
      if c.assetOut != ASSET_YES && c.assetOut != ASSET_NO {
        return Some(BadAssetOut);
      }
      if c.swapFee < 0 {
        return Some(BadFee);
      }
      if c.reserveInAfter < 0 || c.reserveOutAfter < 0 {
        return Some(BadReserves);
      }
      if c.nullifierIn in nullifiers {
        return Some(NullifierUsed);
      }
      var (expectIn, expectOut) := if c.assetOut == ASSET_YES then (reserveNo, reserveYes) else (reserveYes, reserveNo);
      if c.reserveInBefore != expectIn || c.reserveOutBefore != expectOut {
        return Some(StaleReserves);
      }
      if config.None? {
        return Some(NotInitialized);
      }
      e := None;
    }

    /** The writes of an accepted swap; the final root is returned. */
    method ApplySwap(c: Call) returns (r: Result<Fe>)
      requires Valid() && config.Some? && c.SwapCall? && |Abstract().leaves| + 2 < PoolTree.U32_LIMIT
      requires !FeeOverflows(c.swapFee)
      modifies this`reserveYes, this`reserveNo, this`nullifiers, this`fees, tree
      ensures Valid()
      ensures AccrueFee(SwapEffect(old(Abstract()), c), c.swapFee) == Ok(Abstract())
      ensures r == Ok(CurrentRoot(h, Abstract()))
    {
      hide PoolTree.KnownRoots, Root;
      if c.assetOut == ASSET_YES {
        reserveYes, reserveNo := c.reserveOutAfter, c.reserveInAfter;
      } else {
        reserveYes, reserveNo := c.reserveInAfter, c.reserveOutAfter;
      }
      nullifiers := nullifiers + {c.nullifierIn};
      var first := tree.Insert(c.outCommitment);
      var second := tree.Insert(c.changeCommitment);
      AddFee(c.swapFee);
      assert tree.leaves == old(tree.leaves) + [c.outCommitment, c.changeCommitment];
      r := Ok(second.value.0);
    }
  }
}
