/** What a caller of the pool can rely on, entrypoint by entrypoint: which answer a call gets, and after a
    successful one what every account holds and what else has changed. */
module Entrypoints {
  import opened ScalarField
  import opened Merkle
  import opened Outcomes
  import opened Circuits
  import opened Ledger
  import opened PoolSafety
  import PoolTree

  /** The answer to a call: None when it succeeds. */
  function Answer(r: Result<State>): Option<Error> {
    match r
    case Ok(_) => None
    case Err(e) => Some(e)
  }

  /** The first of several failing conditions decides. */
  function Fails(condition: bool, code: Error, otherwise: Option<Error>): Option<Error> {
    if condition then Some(code) else otherwise
  }

  /** From s to t, sum has gone from one account to another and every other balance is what it was. */
  ghost predicate Transferred(s: State, t: State, payer: Address, payee: Address, sum: int) {
    forall a ::
      var before := if a in s.balances then s.balances[a] else 0;
      var after := if a in t.balances then t.balances[a] else 0;
      after == before - (if a == payer then sum else 0) + if a == payee then sum else 0
  }

  lemma PaidIsTransferred(s: State, t: State, payer: Address, payee: Address, sum: nat)
    requires Pay(s.balances, payer, payee, sum) == Some(t.balances)
    ensures Transferred(s, t, payer, payee, sum)
  {
    forall a
      ensures Balance(t.balances, a)
           == Balance(s.balances, a) - (if a == payer then sum else 0) + if a == payee then sum else 0
    {
      PaymentMoves(s.balances, payer, payee, sum, a);
    }
  }

  /** A root the pool has had. */
  ghost predicate HadRoot(h: Hashes, s: State, root: Fe) {
    s.config.Some? && exists n: nat :: n <= |s.leaves| && root == Root(TreeOf(h), 8, s.leaves[..n])
  }

  // ---- shield ----

  lemma ShieldAnswer(h: Hashes, self: Address, s: State, from: Address, amount: I128, commitment: Fe, ref: Fe,
                     auth: set<Address>, proofOk: bool)
    ensures Answer(Step(h, self, s, ShieldCall(from, amount, commitment, ref), auth, proofOk))
         == Fails(from !in auth, Unauthorized,
            Fails(amount <= 0, AmountNotPositive,
            Fails(ref in s.denied, ScreeningDenied,
            Fails(s.config.None?, NotInitialized,
            Fails(!proofOk, ProofInvalid,
            Fails(Balance(s.balances, from) < amount, TransferFailed,
            Fails(|s.leaves| + 1 >= 0x1_0000_0000, Overflow, None)))))))
  {
  }

  lemma ShieldEffect(h: Hashes, self: Address, s: State, from: Address, amount: I128, commitment: Fe, ref: Fe,
                     auth: set<Address>, proofOk: bool, t: State)
    requires Step(h, self, s, ShieldCall(from, amount, commitment, ref), auth, proofOk) == Ok(t)
    ensures Transferred(s, t, from, self, amount)
    ensures t.leaves == s.leaves + [commitment]
    ensures t.nullifiers == s.nullifiers && t.denied == s.denied && t.config == s.config
    ensures t.yes == s.yes && t.no == s.no && t.fees == s.fees
  {
    PaidIsTransferred(s, t, from, self, amount);
  }

  // ---- unshield ----

  lemma UnshieldAnswer(h: Hashes, self: Address, s: State, root: Fe, nullifier: Fe, amount: I128, recipient: Address,
                       field: Fe, fee: I128, auth: set<Address>, proofOk: bool)
    ensures Answer(Step(h, self, s, UnshieldCall(root, nullifier, amount, recipient, field, fee), auth, proofOk))
         == Fails(amount <= 0, AmountNotPositive,
            Fails(fee < 0 || fee > amount, BadFee,
            Fails(!HadRoot(h, s, root), UnknownRoot,
            Fails(nullifier in s.nullifiers, NullifierUsed,
            Fails(!proofOk, ProofInvalid,
            Fails(Balance(s.balances, self) < amount - fee, TransferFailed,
            Fails(fee > 0 && s.fees + fee >= 0x8000_0000_0000_0000_0000_0000_0000_0000, Overflow, None)))))))
  {
    hide Root;
  }

  lemma UnshieldEffect(h: Hashes, self: Address, s: State, root: Fe, nullifier: Fe, amount: I128, recipient: Address,
                       field: Fe, fee: I128, auth: set<Address>, proofOk: bool, t: State)
    requires Step(h, self, s, UnshieldCall(root, nullifier, amount, recipient, field, fee), auth, proofOk) == Ok(t)
    ensures Transferred(s, t, self, recipient, amount - fee)
    ensures t.nullifiers == s.nullifiers + {nullifier} && t.fees == s.fees + fee
    ensures t.leaves == s.leaves && t.denied == s.denied && t.config == s.config && t.yes == s.yes && t.no == s.no
  {
    hide PoolTree.KnownRoots, Transferred;
    if amount > fee {
      PaidIsTransferred(s, t, self, recipient, amount - fee);
    } else {
      NothingTransferred(s, t, self, recipient);
    }
  }

  lemma NothingTransferred(s: State, t: State, payer: Address, payee: Address)
    requires t.balances == s.balances
    ensures Transferred(s, t, payer, payee, 0)
  {
  }

  // ---- private_swap ----

  lemma SwapAnswer(h: Hashes, self: Address, s: State, nullifier: Fe, out: Fe, change: Fe, inBefore: I128,
                   outBefore: I128, inAfter: I128, outAfter: I128, assetOut: nat, fee: I128, auth: set<Address>,
                   proofOk: bool)
    ensures var c := SwapCall(nullifier, out, change, inBefore, outBefore, inAfter, outAfter, assetOut, fee);
      Answer(Step(h, self, s, c, auth, proofOk))
         == Fails(assetOut != 0 && assetOut != 1, BadAssetOut,
            Fails(fee < 0, BadFee,
            Fails(inAfter < 0 || outAfter < 0, BadReserves,
            Fails(nullifier in s.nullifiers, NullifierUsed,
            Fails((assetOut == 0 && !(inBefore == s.no && outBefore == s.yes)) ||
                  (assetOut == 1 && !(inBefore == s.yes && outBefore == s.no)), StaleReserves,
            Fails(s.config.None?, NotInitialized,
            Fails(!proofOk, ProofInvalid,
            Fails(|s.leaves| + 2 >= 0x1_0000_0000, Overflow,
            Fails(fee > 0 && s.fees + fee >= 0x8000_0000_0000_0000_0000_0000_0000_0000, Overflow, None)))))))))
  {
  }

  lemma SwapChanges(h: Hashes, self: Address, s: State, nullifier: Fe, out: Fe, change: Fe, inBefore: I128,
                    outBefore: I128, inAfter: I128, outAfter: I128, assetOut: nat, fee: I128, auth: set<Address>,
                    proofOk: bool, t: State)
    requires Step(h, self, s, SwapCall(nullifier, out, change, inBefore, outBefore, inAfter, outAfter, assetOut, fee),
                  auth, proofOk) == Ok(t)
    ensures assetOut == 0 ==> t.yes == outAfter && t.no == inAfter
    ensures assetOut == 1 ==> t.no == outAfter && t.yes == inAfter
    ensures |t.leaves| == |s.leaves| + 2 && t.leaves[..|s.leaves|] == s.leaves
    ensures t.leaves[|s.leaves|] == out && t.leaves[|s.leaves| + 1] == change
    ensures t.nullifiers == s.nullifiers + {nullifier} && t.fees == s.fees + fee
    ensures t.balances == s.balances && t.denied == s.denied && t.config == s.config
  {
  }

  // ---- The admin's calls ----

  /** Why an admin call is refused before its own checks. */
  function NotAdmin(s: State, auth: set<Address>, otherwise: Option<Error>): Option<Error> {
    Fails(s.config.None?, NotInitialized,
    Fails(s.config.Some? && s.config.value.admin !in auth, Unauthorized, otherwise))
  }

  lemma InitAnswer(h: Hashes, self: Address, s: State, cfg: Config, auth: set<Address>, proofOk: bool)
    ensures var r := Step(h, self, s, Init(cfg), auth, proofOk);
      && Answer(r) == Fails(s.config.Some?, AlreadyInitialized, None)
      && (r.Ok? ==> r.value == State(Some(cfg), [], s.nullifiers, 0, 0, 0, s.denied, s.balances))
  {
  }

  lemma SeedAnswer(h: Hashes, self: Address, s: State, yes: I128, no: I128, auth: set<Address>, proofOk: bool)
    ensures var r := Step(h, self, s, SeedReserves(yes, no), auth, proofOk);
      && Answer(r) == NotAdmin(s, auth, Fails(yes < 0 || no < 0, BadReserves, None))
      && (r.Ok? ==> r.value == State(s.config, s.leaves, s.nullifiers, yes, no, s.fees, s.denied, s.balances))
  {
  }

  lemma DeniedAnswer(h: Hashes, self: Address, s: State, ref: Fe, deny: bool, auth: set<Address>, proofOk: bool)
    ensures var r := Step(h, self, s, SetDenied(ref, deny), auth, proofOk);
      && Answer(r) == NotAdmin(s, auth, None)
      && (r.Ok? ==>
            && (forall x :: x in r.value.denied <==> if x == ref then deny else x in s.denied)
            && r.value == s.(denied := r.value.denied))
  {
  }

  lemma WithdrawFeesAnswer(h: Hashes, self: Address, s: State, to: Address, auth: set<Address>, proofOk: bool)
    requires s.fees >= 0
    ensures var r := Step(h, self, s, WithdrawFees(to), auth, proofOk);
      && Answer(r) == NotAdmin(s, auth, Fails(Balance(s.balances, self) < s.fees, TransferFailed, None))
      && (r.Ok? ==>
            && Transferred(s, r.value, self, to, s.fees)
            && r.value == s.(fees := 0, balances := r.value.balances))
  {
    hide Transferred;
    var r := Step(h, self, s, WithdrawFees(to), auth, proofOk);
    if r.Ok? {
      if s.fees > 0 {
        PaidIsTransferred(s, r.value, self, to, s.fees);
      } else {
        NothingTransferred(s, r.value, self, to);
      }
    }
  }
}
