/** What an observer who sees every witness would write down beside the pool: the note behind each
    leaf, the positions spent and by which key, and the money and market totals. */
module Bookkeeping {
  import opened ScalarField
  import opened Merkle
  import opened Circuits
  import opened Ledger

  datatype Note = Note(asset: Fe, amount: Fe, ownerPk: Fe, rho: Fe)

  /** Totals since the reserves were last seeded, and how many notes there were then. */
  datatype Market = Market(
    seedYes: int, seedNo: int, paidYes: int, paidNo: int, mintedYes: int, mintedNo: int, since: nat)

  datatype Book = Book(
    notes: seq<Note>,          // the note behind each leaf
    spent: map<nat, Fe>,       // spent positions, each with the key that spent it
    spends: nat,               // successful spends so far
    swapIn: int,               // collateral paid into swaps
    swapFees: int,             // fees taken by swaps
    surplus: int,              // tokens the pool holds for nobody: donations and payouts to itself
    market: Market)

  /** The inputs on which each arity of the hash is taken to have no collision. */
  datatype Queries = Queries(q1: iset<Fe>, q2: iset<(Fe, Fe)>, q3: iset<(Fe, Fe, Fe)>, q4: iset<(Fe, Fe, Fe, Fe)>)

  datatype World = World(h: Hashes, q: Queries, self: Address)

  /** No collision among the inputs hashed in a run, and no note hashing to the empty leaf. */
  ghost predicate Ideal(w: World) {
    && (forall x, y :: x in w.q.q1 && y in w.q.q1 && w.h.h1(x) == w.h.h1(y) ==> x == y)
    && CollisionFree(w.h.h2, w.q.q2)
    && (forall x, y :: x in w.q.q3 && y in w.q.q3 && w.h.h3(x.0, x.1, x.2) == w.h.h3(y.0, y.1, y.2) ==> x == y)
    && (forall x, y :: x in w.q.q4 && y in w.q.q4 && w.h.h4(x.0, x.1, x.2, x.3) == w.h.h4(y.0, y.1, y.2, y.3) ==>
          x == y)
    && (forall x :: x in w.q.q4 ==> w.h.h4(x.0, x.1, x.2, x.3) != 0)
  }

  function Commitment(h: Hashes, n: Note): Fe { NoteCommitment(h, n.asset, n.amount, n.ownerPk, n.rho) }

  function Opening(n: Note): (Fe, Fe, Fe, Fe) { (n.asset, n.amount, n.ownerPk, n.rho) }

  /** The offset of a position within its tree of 2^DEPTH leaves. */
  function Slot(p: nat): nat {
    EpochContains(p, DEPTH);
    p - EpochStart(p, DEPTH)
  }

  // ---- Events ----

  datatype Secrets =
    | NoSecrets
    | ShieldSecrets(ownerPk: Fe, rho: Fe)
    | UnshieldSecrets(unshield: UnshieldPrivate)
    | SwapSecrets(swap: SwapPrivate)

  /** A call, who authorised it, the verifier's answer, and the prover's private inputs. */
  datatype Event = Event(call: Call, auth: set<Address>, proofOk: bool, secrets: Secrets)

  function Apply(w: World, s: State, e: Event): Result<State> {
    Step(w.h, w.self, s, e.call, e.auth, e.proofOk)
  }

  /** The ideal verifier: it accepts only what some witness of the circuit satisfies. */
  ghost predicate Sound(w: World, s: State, e: Event) {
    e.proofOk ==>
      match e.call
      case ShieldCall(_, amount, commitment, _) =>
        e.secrets.ShieldSecrets? &&
        exists bits :: Circuits.Shield(w.h, I128ToFr(amount), commitment, e.secrets.ownerPk, e.secrets.rho, bits)
      case UnshieldCall(_, _, _, _, _, _) =>
        e.secrets.UnshieldSecrets? &&
        exists t :: Circuits.Unshield(w.h, DEPTH, UnshieldInputs(e.call), e.secrets.unshield, t)
      case SwapCall(_, _, _, _, _, _, _, assetOut, _) =>
        e.secrets.SwapSecrets? &&
        (assetOut <= 1 ==>
          exists t :: Circuits.PrivateSwap(w.h, DEPTH, SwapInputs(w.h, s, e.call), e.secrets.swap, t))
      case _ => true
  }

  /** The hash inputs of a spend's witness are among the queries. */
  ghost predicate SpendQueried(w: World, note: Note, ownerSk: Fe, elements: seq<Fe>, indices: seq<Fe>) {
    && |elements| == |indices|
    && ownerSk in w.q.q1
    && (ownerSk, note.rho, Reduce(LeafIndex(indices))) in w.q.q3
    && FoldQueried(TreeOf(w.h), w.q.q2, Commitment(w.h, note), elements, indices)
    && Opening(note) in w.q.q4
  }

  /** The notes a witness speaks of. */
  function ShieldNote(c: Call, s: Secrets): Note
    requires c.ShieldCall? && s.ShieldSecrets?
  {
    Note(0, I128ToFr(c.amount), s.ownerPk, s.rho)
  }

  function WithdrawnNote(h: Hashes, c: Call, u: UnshieldPrivate): Note
    requires c.UnshieldCall?
  {
    Note(0, I128ToFr(c.withdrawAmount), OwnerPk(h, u.ownerSk), u.rho)
  }

  function TradedNote(h: Hashes, s: SwapPrivate): Note {
    Note(0, s.inAmount, OwnerPk(h, s.ownerSk), s.rhoIn)
  }

  function PositionNote(h: Hashes, assetOut: Fe, s: SwapPrivate): Note {
    Note(assetOut, s.amountOut, OwnerPk(h, s.ownerSk), s.rhoOut)
  }

  function ChangeNote(h: Hashes, s: SwapPrivate): Note {
    Note(0, Sub(s.inAmount, s.amountIn), OwnerPk(h, s.ownerSk), s.rhoChange)
  }

  ghost predicate Queried(w: World, e: Event) {
    match e.call
    case ShieldCall(_, _, _, _) =>
      e.secrets.ShieldSecrets? ==> Opening(ShieldNote(e.call, e.secrets)) in w.q.q4
    case UnshieldCall(_, _, _, _, _, _) =>
      e.secrets.UnshieldSecrets? ==>
        var u := e.secrets.unshield;
        SpendQueried(w, WithdrawnNote(w.h, e.call, u), u.ownerSk, u.elements, u.indices)
    case SwapCall(_, _, _, _, _, _, _, assetOut, _) =>
      e.secrets.SwapSecrets? && assetOut <= 1 ==>
        var u := e.secrets.swap;
        && SpendQueried(w, TradedNote(w.h, u), u.ownerSk, u.elements, u.indices)
        && Opening(PositionNote(w.h, assetOut + 1, u)) in w.q.q4
        && Opening(ChangeNote(w.h, u)) in w.q.q4
    case _ => true
  }

  /** Every pair the contract hashed on the way to any of its roots is among the queries. */
  ghost predicate TreeQueried(w: World, leaves: seq<Fe>) {
    && NodeQueried(TreeOf(w.h), w.q.q2, [], DEPTH, 0)
    && forall n: nat :: 0 < n <= |leaves| ==>
         NodeQueried(TreeOf(w.h), w.q.q2, leaves[..n], DEPTH, Ancestor(n - 1, DEPTH))
  }

  /** An event that can occur: the pool's own address never signs, proofs are sound, and the hashing
      stays among the queries. */
  ghost predicate Legal(w: World, s: State, e: Event) {
    && w.self !in e.auth
    && Sound(w, s, e)
    && Queried(w, e)
    && (Apply(w, s, e).Ok? ==> TreeQueried(w, Apply(w, s, e).value.leaves))
  }

  // ---- Writing the book ----

  /** A position holding that leaf at that slot of its tree. */
  ghost predicate Holds(leaves: seq<Fe>, p: nat, leaf: Fe, slot: nat) {
    p < |leaves| && leaves[p] == leaf && Slot(p) == slot
  }

  ghost function SpentPosition(leaves: seq<Fe>, leaf: Fe, slot: nat): nat {
    if exists p: nat :: Holds(leaves, p, leaf, slot) then
      var p: nat :| Holds(leaves, p, leaf, slot); p
    else 0
  }

  function Donated(self: Address, payee: Address, sum: int): int {
    if payee == self then sum else 0
  }

  function Traded(m: Market, assetOut: nat, amountIn: int, amountOut: int): Market {
    if assetOut == ASSET_YES then m.(paidNo := m.paidNo + amountIn, mintedYes := m.mintedYes + amountOut)
    else m.(paidYes := m.paidYes + amountIn, mintedNo := m.mintedNo + amountOut)
  }

  /** The book after a call that succeeded. */
  ghost function Record(w: World, s: State, b: Book, e: Event): Book {
    match e.call
    case Init(_) => b
    case SeedReserves(yes, no) => b.(market := Market(yes, no, 0, 0, 0, 0, |b.notes|))
    case SetDenied(_, _) => b
    case WithdrawFees(to) => b.(surplus := b.surplus + if s.fees > 0 then Donated(w.self, to, s.fees) else 0)
    case ShieldCall(_, _, _, _) =>
      if e.secrets.ShieldSecrets? then b.(notes := b.notes + [ShieldNote(e.call, e.secrets)]) else b
    case UnshieldCall(_, _, amount, recipient, _, fee) =>
      if e.secrets.UnshieldSecrets? then
        var u := e.secrets.unshield;
        var p := SpentPosition(s.leaves, Commitment(w.h, WithdrawnNote(w.h, e.call, u)), LeafIndex(u.indices));
        b.(spent := b.spent[p := u.ownerSk], spends := b.spends + 1,
           surplus := b.surplus + Donated(w.self, recipient, amount - fee))
      else b
    case SwapCall(_, _, _, _, _, _, _, assetOut, fee) =>
      if e.secrets.SwapSecrets? && assetOut <= 1 then
        var u := e.secrets.swap;
        var p := SpentPosition(s.leaves, Commitment(w.h, TradedNote(w.h, u)), LeafIndex(u.indices));
        b.(notes := b.notes + [PositionNote(w.h, assetOut + 1, u), ChangeNote(w.h, u)],
           spent := b.spent[p := u.ownerSk], spends := b.spends + 1,
           swapIn := b.swapIn + u.amountIn, swapFees := b.swapFees + fee,
           market := Traded(b.market, assetOut, u.amountIn, u.amountOut))
      else b
    case OutsideTransfer(_, payee, sum) => b.(surplus := b.surplus + Donated(w.self, payee, sum))
  }

  // ---- Totals ----

  /** The total of the unspent notes of an asset. */
  function Unspent(notes: seq<Note>, spent: set<nat>, asset: Fe): (total: nat) {
    if notes == [] then 0
    else
      var n := |notes| - 1;
      Unspent(notes[..n], spent, asset)
      + if notes[n].asset == asset && n !in spent then notes[n].amount else 0
  }

  function UnspentCollateral(b: Book): nat { Unspent(b.notes, b.spent.Keys, 0) }

  lemma {:induction false} UnspentFrame(notes: seq<Note>, spent: set<nat>, p: nat, asset: Fe)
    requires p >= |notes|
    ensures Unspent(notes, spent + {p}, asset) == Unspent(notes, spent, asset)
  {
    if notes != [] {
      UnspentFrame(notes[..|notes| - 1], spent, p, asset);
    }
  }

  /** Spending a position takes its note's amount off the total of the note's asset. */
  lemma {:induction false} UnspentAfterSpend(notes: seq<Note>, spent: set<nat>, p: nat, asset: Fe)
    requires p < |notes| && p !in spent
    ensures Unspent(notes, spent, asset)
         == Unspent(notes, spent + {p}, asset) + if notes[p].asset == asset then notes[p].amount else 0
  {
    var n := |notes| - 1;
    if p == n {
      UnspentFrame(notes[..n], spent, p, asset);
    } else {
      UnspentAfterSpend(notes[..n], spent, p, asset);
    }
  }

  lemma UnspentAfterMint(notes: seq<Note>, spent: set<nat>, n: Note, asset: Fe)
    requires |notes| !in spent
    ensures Unspent(notes + [n], spent, asset)
         == Unspent(notes, spent, asset) + if n.asset == asset then n.amount else 0
  {
    assert (notes + [n])[..|notes|] == notes;
  }

  /** An unspent note is covered by its asset's total. */
  lemma UnspentCovers(notes: seq<Note>, spent: set<nat>, p: nat)
    requires p < |notes| && p !in spent
    ensures notes[p].amount <= Unspent(notes, spent, notes[p].asset)
  {
    UnspentAfterSpend(notes, spent, p, notes[p].asset);
  }

  // ---- The invariant ----

  function NullifierInput(notes: seq<Note>, p: nat, ownerSk: Fe): (Fe, Fe, Fe)
    requires p < |notes|
  {
    (ownerSk, notes[p].rho, Reduce(Slot(p)))
  }

  /** The nullifier of a position for a key. */
  function NullifierAt(h: Hashes, notes: seq<Note>, p: nat, ownerSk: Fe): Fe
    requires p < |notes|
  {
    var x := NullifierInput(notes, p, ownerSk);
    Nullifier(h, x.0, x.1, x.2)
  }

  ghost predicate NotesOpen(w: World, s: State, b: Book) {
    && |b.notes| == |s.leaves|
    && forall i :: 0 <= i < |b.notes| ==>
         && Commitment(w.h, b.notes[i]) == s.leaves[i] && Opening(b.notes[i]) in w.q.q4
         && b.notes[i].amount < BOUND && b.notes[i].asset <= 2
  }

  /** Spent positions hold collateral notes, each spent by the key that owns it. */
  ghost predicate SpendsOwned(w: World, b: Book) {
    forall p :: p in b.spent ==>
      && p < |b.notes| && b.notes[p].asset == 0
      && b.spent[p] in w.q.q1 && OwnerPk(w.h, b.spent[p]) == b.notes[p].ownerPk
      && NullifierInput(b.notes, p, b.spent[p]) in w.q.q3
  }

  /** The nullifier of every spent position, for the key that spent it. */
  ghost function NullifierMap(h: Hashes, b: Book): map<nat, Fe> {
    map p | p in b.spent && p < |b.notes| :: NullifierAt(h, b.notes, p, b.spent[p])
  }

  /** s is the image of m, and m takes no value twice. */
  ghost predicate InjectiveOnto(m: map<nat, Fe>, s: set<Fe>) {
    && (forall p :: p in m ==> m[p] in s)
    && (forall n :: n in s ==> exists p :: p in m && m[p] == n)
    && (forall p, p' :: p in m && p' in m && m[p] == m[p'] ==> p == p')
    && |m| == |s|
  }

  /** The nullifier set is the image of the spent positions under a map that is injective on them. */
  ghost predicate NullifiersExact(w: World, s: State, b: Book) {
    && NullifierMap(w.h, b).Keys == b.spent.Keys
    && InjectiveOnto(NullifierMap(w.h, b), s.nullifiers)
    && b.spends == |b.spent|
  }

  ghost predicate MoneyConserved(w: World, s: State, b: Book) {
    && Balance(s.balances, w.self) + b.swapFees == UnspentCollateral(b) + b.swapIn + s.fees + b.surplus
    && s.fees >= 0 && b.swapIn >= 0 && b.swapFees >= 0 && b.surplus >= 0
  }

  ghost predicate MarketBalanced(s: State, b: Book) {
    var m := b.market;
    && s.yes >= 0 && s.no >= 0
    && s.yes + m.mintedYes == m.seedYes + m.paidYes
    && s.no + m.mintedNo == m.seedNo + m.paidNo
    && s.yes * s.no == m.seedYes * m.seedNo
  }

  ghost predicate BeforeInit(s: State) {
    s.config.None? ==> s.leaves == [] && s.nullifiers == {} && s.yes == s.no == s.fees == 0
  }

  ghost predicate Inv(w: World, s: State, b: Book) {
    && BeforeInit(s) && TreeQueried(w, s.leaves)
    && NotesOpen(w, s, b) && SpendsOwned(w, b) && NullifiersExact(w, s, b)
    && MoneyConserved(w, s, b) && MarketBalanced(s, b)
  }
}
