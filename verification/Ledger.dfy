/** The shielded pool of contracts/shielded_pool/src/lib.rs as a transition function: what each
    entrypoint checks, in the order it checks it, and the state it leaves. A panic is an error result
    and leaves no new state. */
module Ledger {
  import opened ScalarField
  import opened Merkle
  import opened Outcomes
  import opened Circuits
  import PoolTree

  const DEPTH: nat := 8
  const I128_LIMIT: int := 0x8000_0000_0000_0000_0000_0000_0000_0000
  const ASSET_YES: nat := 0
  const ASSET_NO: nat := 1

  type I128 = x: int | -0x8000_0000_0000_0000_0000_0000_0000_0000 <= x < 0x8000_0000_0000_0000_0000_0000_0000_0000

  datatype Address = Address(id: nat)

  datatype Config = Config(admin: Address, verifier: Address, collateral: Address)

  /** The contract's error codes, and the three other ways a call can abort. */
  datatype Error =
    | AlreadyInitialized | NotInitialized | ProofInvalid | AmountNotPositive | ScreeningDenied
    | NullifierUsed | UnknownRoot | StaleReserves | BadFee | BadAssetOut | BadReserves
    | Unauthorized | TransferFailed | Overflow

  datatype Result<+T> = Ok(value: T) | Err(error: Error)

  /** Contract storage, with the collateral token's balances beside it. */
  datatype State = State(
    config: Option<Config>, leaves: seq<Fe>, nullifiers: set<Fe>,
    yes: I128, no: I128, fees: I128, denied: set<Fe>, balances: map<Address, nat>)

  datatype Call =
    | Init(cfg: Config)
    | SeedReserves(seedYes: I128, seedNo: I128)
    | SetDenied(ref: Fe, deny: bool)
    | WithdrawFees(to: Address)
    | ShieldCall(from: Address, amount: I128, commitment: Fe, screeningRef: Fe)
    | UnshieldCall(root: Fe, nullifier: Fe, withdrawAmount: I128, recipient: Address, recipientField: Fe,
                   unshieldFee: I128)
    | SwapCall(nullifierIn: Fe, outCommitment: Fe, changeCommitment: Fe,
               reserveInBefore: I128, reserveOutBefore: I128, reserveInAfter: I128, reserveOutAfter: I128,
               assetOut: nat, swapFee: I128)
    // A token transfer that does not go through the pool.
    | OutsideTransfer(payer: Address, payee: Address, sum: nat)

  // ---- Tokens ----

  function Balance(m: map<Address, nat>, a: Address): nat {
    if a in m then m[a] else 0
  }

  /** The token's transfer; None when the payer is short. */
  function Pay(m: map<Address, nat>, payer: Address, payee: Address, sum: nat): Option<map<Address, nat>> {
    if Balance(m, payer) < sum then None
    else
      var debited := m[payer := Balance(m, payer) - sum];
      Some(debited[payee := Balance(debited, payee) + sum])
  }

  // ---- Public inputs ----

  /** The low 16 bytes of the scalar are the two's-complement bytes of v. */
  function I128ToFr(v: I128): Fe { v % 0x1_0000_0000_0000_0000_0000_0000_0000_0000 }

  function UnshieldInputs(c: Call): UnshieldPublic
    requires c.UnshieldCall?
  {
    UnshieldPublic(c.root, c.nullifier, I128ToFr(c.withdrawAmount), c.recipientField)
  }

  function CurrentRoot(h: Hashes, s: State): Fe { Root(TreeOf(h), DEPTH, s.leaves) }

  /** The nine inputs the contract rebuilds, the asset shifted to the note scheme's numbering. */
  function SwapInputs(h: Hashes, s: State, c: Call): SwapPublic
    requires c.SwapCall? && c.assetOut <= 1
  {
    SwapPublic(CurrentRoot(h, s), c.nullifierIn, c.outCommitment, c.changeCommitment,
               I128ToFr(c.reserveInBefore), I128ToFr(c.reserveOutBefore),
               I128ToFr(c.reserveInAfter), I128ToFr(c.reserveOutAfter), c.assetOut + 1)
  }

  function Known(h: Hashes, s: State): set<Fe> {
    if s.config.None? then {} else PoolTree.KnownRoots(TreeOf(h), DEPTH, s.leaves)
  }

  // ---- Entrypoints ----

  function AccrueFee(s: State, fee: I128): Result<State> {
    if fee > 0 then
      if s.fees + fee >= I128_LIMIT then Err(Overflow) else Ok(s.(fees := s.fees + fee))
    else Ok(s)
  }

  function StepInit(s: State, c: Call): Result<State>
    requires c.Init?
  {
    if s.config.Some? then Err(AlreadyInitialized)
    else Ok(s.(config := Some(c.cfg), yes := 0, no := 0, fees := 0, leaves := []))
  }

  /** require_admin. */
  function AdminError(s: State, auth: set<Address>): Option<Error> {
    if s.config.None? then Some(NotInitialized)
    else if s.config.value.admin !in auth then Some(Unauthorized)
    else None
  }

  function StepSeed(s: State, c: Call, auth: set<Address>): Result<State>
    requires c.SeedReserves?
  {
    var e := AdminError(s, auth);
    if e.Some? then Err(e.value)
    else if c.seedYes < 0 || c.seedNo < 0 then Err(BadReserves)
    else Ok(s.(yes := c.seedYes, no := c.seedNo))
  }

  function StepDenied(s: State, c: Call, auth: set<Address>): Result<State>
    requires c.SetDenied?
  {
    var e := AdminError(s, auth);
    if e.Some? then Err(e.value)
    else Ok(s.(denied := if c.deny then s.denied + {c.ref} else s.denied - {c.ref}))
  }

  function StepWithdraw(self: Address, s: State, c: Call, auth: set<Address>): Result<State>
    requires c.WithdrawFees?
  {
    var e := AdminError(s, auth);
    if e.Some? then Err(e.value)
    else if s.fees > 0 then
      var paid := Pay(s.balances, self, c.to, s.fees);
      if paid.None? then Err(TransferFailed) else Ok(s.(balances := paid.value, fees := 0))
    else Ok(s)
  }

  function StepShield(self: Address, s: State, c: Call, auth: set<Address>, proofOk: bool): Result<State>
    requires c.ShieldCall?
  {
    if c.from !in auth then Err(Unauthorized)
    else if c.amount <= 0 then Err(AmountNotPositive)
    else if c.screeningRef in s.denied then Err(ScreeningDenied)
    else if s.config.None? then Err(NotInitialized)
    else if !proofOk then Err(ProofInvalid)
    else
      var paid := Pay(s.balances, c.from, self, c.amount);
      if paid.None? then Err(TransferFailed)
      else if |s.leaves| + 1 >= PoolTree.U32_LIMIT then Err(Overflow)
      else Ok(s.(balances := paid.value, leaves := s.leaves + [c.commitment]))
  }

  function StepUnshield(h: Hashes, self: Address, s: State, c: Call, proofOk: bool): Result<State>
    requires c.UnshieldCall?
  {
    if c.withdrawAmount <= 0 then Err(AmountNotPositive)
    else if c.unshieldFee < 0 || c.unshieldFee > c.withdrawAmount then Err(BadFee)
    else if c.root !in Known(h, s) then Err(UnknownRoot)
    else if c.nullifier in s.nullifiers then Err(NullifierUsed)
    else if s.config.None? then Err(NotInitialized)
    else if !proofOk then Err(ProofInvalid)
    else
      var marked := s.(nullifiers := s.nullifiers + {c.nullifier});
      var payout := c.withdrawAmount - c.unshieldFee;
      if payout > 0 then
        var paid := Pay(s.balances, self, c.recipient, payout);
        if paid.None? then Err(TransferFailed) else AccrueFee(marked.(balances := paid.value), c.unshieldFee)
      else AccrueFee(marked, c.unshieldFee)
  }

  /** The reserves as the trade sees them: what is paid in, what is taken out. */
  function Framed(assetOut: nat, yes: I128, no: I128): (I128, I128) {
    if assetOut == ASSET_YES then (no, yes) else (yes, no)
  }

  /** What an accepted swap stores: the reserves mapped back, the nullifier, and the two new leaves. */
  function SwapEffect(s: State, c: Call): State
    requires c.SwapCall?
  {
    var (newYes, newNo) := if c.assetOut == ASSET_YES then (c.reserveOutAfter, c.reserveInAfter)
                           else (c.reserveInAfter, c.reserveOutAfter);
    s.(yes := newYes, no := newNo, nullifiers := s.nullifiers + {c.nullifierIn},
       leaves := s.leaves + [c.outCommitment, c.changeCommitment])
  }

  /** The checks of private_swap before its proof. */
  function SwapGuards(s: State, c: Call): Option<Error>
    requires c.SwapCall?
  {
    if c.assetOut != ASSET_YES && c.assetOut != ASSET_NO then Some(BadAssetOut)
    else if c.swapFee < 0 then Some(BadFee)
    else if c.reserveInAfter < 0 || c.reserveOutAfter < 0 then Some(BadReserves)
    else if c.nullifierIn in s.nullifiers then Some(NullifierUsed)
    else if (c.reserveInBefore, c.reserveOutBefore) != Framed(c.assetOut, s.yes, s.no) then Some(StaleReserves)
    else if s.config.None? then Some(NotInitialized)
    else None
  }

  function StepSwap(s: State, c: Call, proofOk: bool): Result<State>
    requires c.SwapCall?
  {
    var e := SwapGuards(s, c);
    if e.Some? then Err(e.value)
    else if !proofOk then Err(ProofInvalid)
    else if |s.leaves| + 2 >= PoolTree.U32_LIMIT then Err(Overflow)
    else AccrueFee(SwapEffect(s, c), c.swapFee)
  }

  function StepTransfer(s: State, c: Call, auth: set<Address>): Result<State>
    requires c.OutsideTransfer?
  {
    if c.payer !in auth then Err(Unauthorized)
    else
      var paid := Pay(s.balances, c.payer, c.payee, c.sum);
      if paid.None? then Err(TransferFailed) else Ok(s.(balances := paid.value))
  }

  /** One call. proofOk is the verifier's answer on the inputs above. */
  function Step(h: Hashes, self: Address, s: State, c: Call, auth: set<Address>, proofOk: bool): Result<State> {
    match c
    case Init(_) => StepInit(s, c)
    case SeedReserves(_, _) => StepSeed(s, c, auth)
    case SetDenied(_, _) => StepDenied(s, c, auth)
    case WithdrawFees(_) => StepWithdraw(self, s, c, auth)
    case ShieldCall(_, _, _, _) => StepShield(self, s, c, auth, proofOk)
    case UnshieldCall(_, _, _, _, _, _) => StepUnshield(h, self, s, c, proofOk)
    case SwapCall(_, _, _, _, _, _, _, _, _) => StepSwap(s, c, proofOk)
    case OutsideTransfer(_, _, _) => StepTransfer(s, c, auth)
  }
}
