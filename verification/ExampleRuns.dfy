/** Runs in the toy world: a deposit and its withdrawal; a swap whose fee leaves the pool insolvent; and a
    note in a second tree that can never be withdrawn. */
module ExampleRuns {
  import opened ScalarField
  import opened Merkle
  import opened Outcomes
  import opened Circuits
  import opened Ledger
  import opened Bookkeeping
  import opened PoolSafety
  import opened PoolTheorems
  import opened Example
  import opened Store
  import opened Wallet
  import opened WalletRuns
  import opened SharedPool
  import PoolTree

  const CONFIG := Config(Address(2), Address(3), Address(4))
  const OTHER := Address(5)
  const FUNDS: map<Address, nat> := map[USER := 1000, OTHER := 1]

  lemma ToyAssumed()
    requires NoZeroDivisors()
    ensures Assumed(ToyWorld())
  {
    hide Ideal, TreeQueried;
    ToyIdeal();
    OnesQueried(0);
    assert Ones(0) == [];
  }

  /** One more legal event. */
  lemma ReachNext(w: World, c: Configuration, e: Event)
    requires Reachable(w, c) && Legal(w, c.s, e)
    ensures Reachable(w, Next(w, c, e))
  {
    hide Legal, Next, Start;
    var balances, events :|
      LegalRun(w, Start(w.self, balances), events) && Run(w, Start(w.self, balances), events) == c;
    var start := Start(w.self, balances);
    RunOnce(w, start, events, e);
    assert LegalRun(w, start, events + [e]) && Run(w, start, events + [e]) == Next(w, c, e);
  }

  lemma RunOnce(w: World, c: Configuration, events: seq<Event>, e: Event)
    requires LegalRun(w, c, events) && Legal(w, Run(w, c, events).s, e)
    ensures LegalRun(w, c, events + [e]) && Run(w, c, events + [e]) == Next(w, Run(w, c, events), e)
  {
    hide Legal, Next;
    assert (events + [e])[..|events|] == events;
  }

  lemma StartReachable(w: World, balances: map<Address, nat>)
    ensures Reachable(w, Start(w.self, balances))
  {
    hide Start;
    assert LegalRun(w, Start(w.self, balances), []) && Run(w, Start(w.self, balances), []) == Start(w.self, balances);
  }

  // ---- Deposits ----

  function Deploy(): Event { Event(Init(CONFIG), {}, true, NoSecrets) }

  type Coins = x: int | 0 < x < 1000 witness 1

  /** A deposit by the user, always under the same key 7 and randomness 9. */
  function Deposit(amount: Coins): Event {
    Event(ShieldCall(USER, amount, amount, 0), {USER}, true, ShieldSecrets(7, 9))
  }

  function ToyNote(amount: Fe): Note { Note(0, amount, 7, 9) }

  function Moved(m: map<Address, nat>, amount: nat): map<Address, nat> {
    if Balance(m, USER) < amount then m
    else
      var debited := m[USER := Balance(m, USER) - amount];
      debited[POOL := Balance(debited, POOL) + amount]
  }

  function Balances(n: nat): (m: map<Address, nat>)
    requires n <= 256
    ensures Balance(m, USER) == 1000 - n && Balance(m, POOL) == n
  {
    if n == 0 then FUNDS else Moved(Balances(n - 1), 1)
  }

  function Notes(n: nat): (s: seq<Note>)
    ensures |s| == n && forall i :: 0 <= i < n ==> s[i] == ToyNote(1)
  {
    seq(n, i => ToyNote(1))
  }

  /** After deploying and n deposits of one. */
  function Deposited(n: nat): Configuration
    requires n <= 256
  {
    Configuration(State(Some(CONFIG), Ones(n), {}, 0, 0, 0, {}, Balances(n)),
                  Book(Notes(n), map[], 0, 0, 0, 0, Market(0, 0, 0, 0, 0, 0, 0)))
  }

  lemma DeployWorks()
    ensures Legal(ToyWorld(), Start(POOL, FUNDS).s, Deploy())
    ensures Next(ToyWorld(), Start(POOL, FUNDS), Deploy()) == Deposited(0)
  {
    hide TreeQueried;
    OnesQueried(0);
    assert Ones(0) == [] && Notes(0) == [];
  }

  lemma DeployReaches()
    ensures Reachable(ToyWorld(), Deposited(0))
  {
    hide Legal, Reachable, Next;
    StartReachable(ToyWorld(), FUNDS);
    DeployWorks();
    ReachNext(ToyWorld(), Start(POOL, FUNDS), Deploy());
  }

  function AfterDeposit(c: Configuration, amount: Coins): Configuration {
    Configuration(c.s.(balances := Moved(c.s.balances, amount), leaves := c.s.leaves + [amount]),
                  c.b.(notes := c.b.notes + [ToyNote(amount)]))
  }

  ghost predicate CanDeposit(s: State, amount: Coins) {
    && (amount == 1 || amount == 500) && s.config.Some? && s.denied == {} && Balance(s.balances, USER) >= amount
    && |s.leaves| <= 256 && TreeQueried(ToyWorld(), s.leaves + [amount])
  }

  /** A deposit is proven and accepted. */
  lemma DepositWorks(c: Configuration, amount: Coins)
    requires NoZeroDivisors() && CanDeposit(c.s, amount)
    ensures Legal(ToyWorld(), c.s, Deposit(amount))
    ensures Next(ToyWorld(), c, Deposit(amount)) == AfterDeposit(c, amount)
  {
    hide TreeQueried, Shield, ToyQueries;
    ToyOpenings();
    ShieldExact(ToyHashes(), amount, amount, 7, 9);
    assert ShieldMeans(ToyHashes(), amount, amount, 7, 9);
    EncodesItself(amount);
    assert Sound(ToyWorld(), c.s, Deposit(amount));
    assert Queried(ToyWorld(), Deposit(amount));
  }

  lemma ToyOpenings()
    ensures Opening(ToyNote(1)) in ToyQueries().q4 && Opening(ToyNote(500)) in ToyQueries().q4
    ensures (1, 0, 7, 9) in ToyQueries().q4 && (0, 1, 7, 10) in ToyQueries().q4
    ensures 7 in ToyQueries().q1 && (7, 9, 0) in ToyQueries().q3
  {
  }

  lemma OneMore(n: nat)
    requires 0 < n <= 256
    ensures AfterDeposit(Deposited(n - 1), 1) == Deposited(n)
    ensures CanDeposit(Deposited(n - 1).s, 1)
  {
    hide TreeQueried;
    OnesQueried(n);
    assert Ones(n - 1) + [1] == Ones(n) && Notes(n - 1) + [ToyNote(1)] == Notes(n);
  }

  lemma DepositReaches(c: Configuration, amount: Coins)
    requires NoZeroDivisors() && CanDeposit(c.s, amount) && Reachable(ToyWorld(), c)
    ensures Reachable(ToyWorld(), AfterDeposit(c, amount))
  {
    hide CanDeposit, Reachable, Legal, Next, AfterDeposit;
    DepositWorks(c, amount);
    ReachNext(ToyWorld(), c, Deposit(amount));
  }

  lemma {:induction false} DepositsReach(n: nat)
    requires NoZeroDivisors() && n <= 256
    ensures Reachable(ToyWorld(), Deposited(n))
  {
    hide Reachable, CanDeposit, AfterDeposit, Deposited;
    if n == 0 {
      DeployReaches();
    } else {
      DepositsReach(n - 1);
      OneMore(n);
      DepositReaches(Deposited(n - 1), 1);
    }
  }

  // ---- A withdrawal ----

  /** The owner's withdrawal of the first note, at the root the pool had after its insert. */
  function FirstWithdrawal(c: Configuration): Event
    requires 1 <= |c.s.leaves| && c.b.notes != [] && c.b.notes[0] == ToyNote(1)
  {
    WithdrawalEvent(ToyHashes(), c.s, c.b, 1, 0, 7, USER, 0, 0)
  }

  /** Deposits only, the first of them of one. */
  ghost predicate Untouched(c: Configuration) {
    && c.s.config.Some? && c.s.leaves != [] && c.b.notes != [] && c.b.notes[0] == ToyNote(1)
    && c.b.spent == map[] && c.b.swapFees == 0 && c.s.fees == 0 && c.s.nullifiers == {}
  }

  lemma SlotZero()
    ensures Slot(0) == 0 && Slot(256) == 0 && InTree(1, 0) && InTree(257, 256)
  {
    DepthFits();
    SlotOf(0, 0);
    SlotOf(1, 0);
    hide Ancestor, Slot;
    InTreeFrom(1, 0);
    InTreeFrom(257, 256);
    EpochContains(0, DEPTH);
    EpochContains(256, DEPTH);
  }

  lemma FirstWithdrawalWorks(c: Configuration)
    requires NoZeroDivisors() && Reachable(ToyWorld(), c) && Untouched(c)
    ensures Legal(ToyWorld(), c.s, FirstWithdrawal(c)) && Apply(ToyWorld(), c.s, FirstWithdrawal(c)).Ok?
  {
    hide Inv, Reachable, Legal, Apply, Solvent, Slot, InTree, Assumed, ToyQueries, Pow2;
    SlotZero();
    ToyOpenings();
    ToyAssumed();
    Solvency(ToyWorld(), c);
    UnspentNotePayable(ToyWorld(), c, 1, 0, 7, USER, 0, 0);
  }

  lemma WithdrawalStores(w: World, s: State, e: Event)
    requires e.call.UnshieldCall? && Apply(w, s, e).Ok?
    ensures var s' := Apply(w, s, e).value;
      && s'.nullifiers == s.nullifiers + {e.call.nullifier} && s'.leaves == s.leaves && s'.config == s.config
  {
    hide PoolTree.KnownRoots;
  }

  /** All hypotheses hold together in a world where a deposit and its withdrawal go through. */
  lemma Realisable()
    requires NoZeroDivisors()
    ensures Untouched(Deposited(1))
    ensures Reachable(ToyWorld(), Next(ToyWorld(), Deposited(1), FirstWithdrawal(Deposited(1))))
    ensures Next(ToyWorld(), Deposited(1), FirstWithdrawal(Deposited(1))).s.nullifiers == {3}
    ensures Assumed(ToyWorld())
  {
    hide Inv, Reachable, Legal, Apply, Assumed, Record, FirstWithdrawal, Deposited;
    ToyAssumed();
    DepositsReach(1);
    FirstDeposited();
    FirstWithdrawalWorks(Deposited(1));
    ReachNext(ToyWorld(), Deposited(1), FirstWithdrawal(Deposited(1)));
    NullifierIsThree(Deposited(1));
    WithdrawalStores(ToyWorld(), Deposited(1).s, FirstWithdrawal(Deposited(1)));
  }

  lemma FirstDeposited()
    ensures Untouched(Deposited(1))
  {
  }

  lemma NullifierIsThree(c: Configuration)
    requires Untouched(c)
    ensures FirstWithdrawal(c).call.UnshieldCall? && FirstWithdrawal(c).call.nullifier == 3
  {
    hide PathElements, BitsOf, PastRoot;
  }

  // ---- A swap fee the pool cannot cover ----

  /** A swap of nothing for nothing against empty reserves, with a fee of two. */
  function SwapWitnessed(): SwapPrivate {
    SwapPrivate(7, 1, 9, PathElements(ToyHashes(), Ones(1), 0), BitsOf(0, DEPTH), 0, 0, 9, 10)
  }

  function Drain(): Event {
    Event(SwapCall(3, 1000, 10000, 0, 0, 0, 0, ASSET_YES, 2), {}, true, SwapSecrets(SwapWitnessed()))
  }

  lemma DrainMeans()
    ensures SwapMeans(ToyHashes(), DEPTH, SwapInputs(ToyHashes(), Deposited(1).s, Drain().call), SwapWitnessed())
  {
    hide PathElements, BitsOf, Spends, Root, Slot, InTree;
    SlotZero();
    PathSpends(ToyHashes(), Ones(1), 1, 0, 7, 9);
    assert Ones(1)[..1] == Ones(1);
  }

  lemma DrainQueried()
    ensures Queried(ToyWorld(), Drain())
  {
    hide PathElements, BitsOf, ToyQueries, FoldQueried, TreeQueried, Slot, LeafIndex, InTree;
    SlotZero();
    ToyOpenings();
    OnesQueried(1);
    BitsSpellSlot(0);
    PathHashesQueried(ToyWorld(), Ones(1), 1, 0);
    assert Ones(1)[..1] == Ones(1);
    assert TradedNote(ToyHashes(), SwapWitnessed()) == ToyNote(1);
  }

  lemma DrainLegal()
    requires NoZeroDivisors()
    ensures Legal(ToyWorld(), Deposited(1).s, Drain())
    ensures Apply(ToyWorld(), Deposited(1).s, Drain()) == Ok(SwapEffect(Deposited(1).s, Drain().call).(fees := 2))
  {
    hide PathElements, BitsOf, Circuits.PrivateSwap, SwapMeans, Queried, TreeQueried, CurrentRoot, SignalsOf;
    DepthFits();
    hide Pow2;
    DrainMeans();
    SwapComplete(ToyHashes(), DEPTH, SwapInputs(ToyHashes(), Deposited(1).s, Drain().call), SwapWitnessed());
    DrainQueried();
    SwappedQueried();
    assert Ones(1) + [1000, 10000] == [1, 1000, 10000];
  }

  /** A reachable configuration in which a swap, proven and accepted, has left the pool with more fees
      recorded than it has tokens. */
  lemma SwapFeeExample()
    requires NoZeroDivisors()
    ensures var c := Next(ToyWorld(), Deposited(1), Drain());
      Reachable(ToyWorld(), c) && !Solvent(ToyWorld(), c) && c.s.fees == 2 > Balance(c.s.balances, POOL) == 1
  {
    hide Reachable, Legal, Apply, Record, Unspent;
    DepositsReach(1);
    DrainLegal();
    ReachNext(ToyWorld(), Deposited(1), Drain());
  }

  // ---- A note that stays locked ----

  /** A full tree of deposits, and one of 500 that is the first leaf of the next tree. */
  function Filled(): Configuration { AfterDeposit(Deposited(256), 500) }

  lemma FilledReachable()
    requires NoZeroDivisors()
    ensures Reachable(ToyWorld(), Filled()) && Untouched(Filled())
    ensures Filled().s.leaves == Overfull() && Filled().b.notes == Notes(256) + [ToyNote(500)]
  {
    hide TreeQueried, Reachable;
    DepositsReach(256);
    OverfullQueried();
    DepositReaches(Deposited(256), 500);
  }

  /** After the first of the small notes is withdrawn. */
  ghost function FirstSpent(): Configuration
    requires Untouched(Filled())
  {
    Next(ToyWorld(), Filled(), FirstWithdrawal(Filled()))
  }

  /** What the withdrawal of the first note spends is not the large one. */
  lemma SpentElsewhere()
    requires Untouched(Filled()) && Filled().s.leaves == Overfull()
    ensures var e := FirstWithdrawal(Filled());
      var r := Record(ToyWorld(), Filled().s, Filled().b, e);
      256 !in r.spent && r.notes == Filled().b.notes
  {
    hide PathElements, BitsOf, LeafIndex, Slot, PastRoot, NullifierAt, Filled, SpentPosition, Overfull;
    SlotZero();
    BitsSpellSlot(0);
    var e := FirstWithdrawal(Filled());
    var leaf := Commitment(ToyHashes(), WithdrawnNote(ToyHashes(), e.call, e.secrets.unshield));
    OverfullEnds();
    NotSpent(Overfull(), leaf, 0, 0, 256);
  }

  lemma OverfullEnds()
    ensures |Overfull()| == 257 && Overfull()[0] == 1 && Overfull()[256] == 500
  {
  }

  /** The position a leaf's spend consumes is not one that holds another leaf. */
  lemma NotSpent(leaves: seq<Fe>, leaf: Fe, slot: nat, p: nat, q: nat)
    requires Holds(leaves, p, leaf, slot) && q < |leaves| && leaves[q] != leaf
    ensures SpentPosition(leaves, leaf, slot) != q
  {
    hide Slot;
    assert Holds(leaves, SpentPosition(leaves, leaf, slot), leaf, slot);
  }

  /** The large note's owner can prove its withdrawal, the pool is solvent, and yet the contract answers
      that the nullifier is used: key, randomness and slot are those of the note spent before. */
  lemma LockedNote()
    requires NoZeroDivisors()
    ensures Untouched(Filled())
    ensures var c := FirstSpent();
      && Reachable(ToyWorld(), c) && Solvent(ToyWorld(), c)
      && |c.b.notes| == |c.s.leaves| == 257 && c.b.notes[256] == ToyNote(500) && 256 !in c.b.spent
      && var e := WithdrawalEvent(ToyHashes(), c.s, c.b, 257, 256, 7, USER, 0, 0);
         Legal(ToyWorld(), c.s, e) && Apply(ToyWorld(), c.s, e) == Err(NullifierUsed)
  {
    hide Reachable, Legal, Apply, Record, Solvent, Filled, Inv, Assumed, FirstWithdrawal, Untouched;
    FilledReachable();
    FirstWithdrawalWorks(Filled());
    ReachNext(ToyWorld(), Filled(), FirstWithdrawal(Filled()));
    FirstSpentIs();
    SecondIsRefused(FirstSpent());
  }

  lemma FirstSpentIs()
    requires NoZeroDivisors() && Untouched(Filled()) && Filled().s.leaves == Overfull()
    requires Filled().b.notes == Notes(256) + [ToyNote(500)]
    requires Apply(ToyWorld(), Filled().s, FirstWithdrawal(Filled())).Ok?
    ensures var c := FirstSpent();
      && c.s.config.Some? && c.s.leaves == Overfull() && c.s.nullifiers == {3} && c.b.swapFees == 0
      && c.b.notes == Notes(256) + [ToyNote(500)] && 256 !in c.b.spent
  {
    hide Apply, Filled, PathElements, BitsOf;
    SpentElsewhere();
    WithdrawalStores(ToyWorld(), Filled().s, FirstWithdrawal(Filled()));
    FeeFree(ToyWorld(), Filled().s, Filled().b, FirstWithdrawal(Filled()));
  }

  lemma FeeFree(w: World, s: State, b: Book, e: Event)
    requires e.call.UnshieldCall?
    ensures Record(w, s, b, e).swapFees == b.swapFees
  {
    hide SpentPosition, LeafIndex, Commitment;
  }

  lemma SecondIsRefused(c: Configuration)
    requires NoZeroDivisors() && Reachable(ToyWorld(), c)
    requires c.s.config.Some? && c.s.leaves == Overfull() && c.s.nullifiers == {3} && c.b.swapFees == 0
    requires c.b.notes == Notes(256) + [ToyNote(500)] && 256 !in c.b.spent
    ensures Solvent(ToyWorld(), c)
    ensures var e := WithdrawalEvent(ToyHashes(), c.s, c.b, 257, 256, 7, USER, 0, 0);
      Legal(ToyWorld(), c.s, e) && Apply(ToyWorld(), c.s, e) == Err(NullifierUsed)
  {
    hide Inv, Reachable, Legal, Solvent, Slot, InTree, ToyQueries, PathElements, BitsOf, PoolTree.KnownRoots, Ideal;
    hide TreeQueried, PastRoot;
    SlotZero();
    ToyOpenings();
    ToyAssumed();
    Solvency(ToyWorld(), c);
    ReachableHolds(ToyWorld(), c);
    WithdrawalLegal(ToyWorld(), c.s, c.b, 257, 256, 7, USER, 0, 0);
    PastRootKnown(ToyHashes(), c.s, 257);
  }

  // ---- The wallet in this world ----

  lemma FairOnce(w: World, sys: System, actions: seq<Action>, a: Action)
    requires FairRun(w, sys, actions) && Fair(w, RunOf(w, sys, actions), a)
    ensures FairRun(w, sys, actions + [a]) && RunOf(w, sys, actions + [a]) == Act(w, RunOf(w, sys, actions), a)
  {
    hide Fair, Act;
    assert (actions + [a])[..|actions|] == actions;
  }

  lemma FairNone(w: World, sys: System)
    ensures FairRun(w, sys, []) && RunOf(w, sys, []) == sys
  {
  }

  /** Someone deploys the pool; the wallet deposits one and withdraws it. */
  const ACTIONS: seq<Action> := [Others(Deploy()), Mine(ShieldCmd(USER, 1, 9)), Mine(UnshieldCmd(USER, 0))]

  const NEW_WALLET: WalletState := WalletState(7, [], [])

  const HELD: WalletNote := WalletNote(0, 1, 7, 9, 0, 1, false)

  const HOLDING_WALLET: WalletState := WalletState(7, [HELD], [1])

  const SPENT_WALLET: WalletState := WalletState(7, [HELD.(spent := true)], [1])

  lemma ShieldCommand()
    requires NoZeroDivisors()
    ensures var sys, a := System(Deposited(0), NEW_WALLET), Mine(ShieldCmd(USER, 1, 9));
      Fair(ToyWorld(), sys, a) && Act(ToyWorld(), sys, a) == System(Deposited(1), HOLDING_WALLET)
  {
    hide TreeQueried, Queried, Sound, Apply, Record, CanDeposit;
    OneMore(1);
    DepositWorks(Deposited(0), 1);
    assert ShieldEvent(ToyHashes(), NEW_WALLET, ShieldCmd(USER, 1, 9)) == Deposit(1);
    assert Notes(0) == [];
  }

  lemma FirstIsHeld()
    ensures Deposited(1).s.leaves == [1] && Deposited(1).b.notes == [ToyNote(1)]
    ensures FirstUnspent(HOLDING_WALLET.notes, 0) == Some(0)
    ensures Holding(ToyWorld(), Deposited(1), HOLDING_WALLET, HELD) && 1 <= Pow2(DEPTH)
  {
    assert Ones(1) == [1] && Notes(1) == [ToyNote(1)];
  }

  lemma FirstSound()
    requires NoZeroDivisors()
    ensures Untouched(Deposited(1)) && Sound(ToyWorld(), Deposited(1).s, FirstWithdrawal(Deposited(1)))
  {
    hide Deposited, Legal, Apply, Sound, FirstWithdrawal, Reachable;
    FirstDeposited();
    DepositsReach(1);
    FirstWithdrawalWorks(Deposited(1));
    SoundPart(Deposited(1).s, FirstWithdrawal(Deposited(1)));
  }

  lemma EventIsFirst(c: Configuration)
    requires Untouched(c) && |c.s.leaves| == 1 && Holding(ToyWorld(), c, HOLDING_WALLET, HELD)
    requires Sound(ToyWorld(), c.s, FirstWithdrawal(c))
    ensures EventOf(ToyHashes(), c.s, HOLDING_WALLET, UnshieldCmd(USER, 0)) == Some(FirstWithdrawal(c))
  {
    hide Sound, WithdrawalEvent, EventOf, ToyQueries;
    FirstIsUnspent();
    UnshieldEventIs(ToyWorld(), c, HOLDING_WALLET, UnshieldCmd(USER, 0), 0);
  }

  lemma FirstIsUnspent()
    ensures FirstUnspent(HOLDING_WALLET.notes, 0) == Some(0) && 1 <= Pow2(DEPTH)
  {
  }

  /** The wallet's withdrawal is the owner's of the run model. */
  lemma UnshieldCommandEvent()
    requires NoZeroDivisors()
    ensures Untouched(Deposited(1))
    ensures EventOf(ToyHashes(), Deposited(1).s, HOLDING_WALLET, UnshieldCmd(USER, 0))
         == Some(FirstWithdrawal(Deposited(1)))
  {
    hide Deposited, Sound, FirstWithdrawal, EventOf, Holding, ToyHashes, ToyQueries, FirstUnspent;
    FirstIsHeld();
    FirstSound();
    EventIsFirst(Deposited(1));
  }

  lemma SoundPart(s: State, e: Event)
    requires Legal(ToyWorld(), s, e)
    ensures Sound(ToyWorld(), s, e) && ToyWorld().self !in e.auth && Queried(ToyWorld(), e)
    ensures Apply(ToyWorld(), s, e).Ok? ==> TreeQueried(ToyWorld(), Apply(ToyWorld(), s, e).value.leaves)
  {
    hide Sound, Queried, Apply, TreeQueried;
  }

  lemma UnshieldCommand()
    requires NoZeroDivisors()
    ensures Untouched(Deposited(1))
    ensures var sys, a := System(Deposited(1), HOLDING_WALLET), Mine(UnshieldCmd(USER, 0));
      && Fair(ToyWorld(), sys, a)
      && Act(ToyWorld(), sys, a) == System(Next(ToyWorld(), Deposited(1), FirstWithdrawal(Deposited(1))), SPENT_WALLET)
  {
    hide Deposited, Legal, Apply, TreeQueried, Queried, Record, FirstWithdrawal, EventOf;
    FirstDeposited();
    FirstIsHeld();
    DepositsReach(1);
    FirstWithdrawalWorks(Deposited(1));
    UnshieldCommandEvent();
    SoundPart(Deposited(1).s, FirstWithdrawal(Deposited(1)));
  }

  /** The wallet's hypotheses hold along a run in which its deposit and its withdrawal are accepted. */
  lemma WalletRealisable()
    requires NoZeroDivisors()
    ensures Assumed(ToyWorld()) && FairRun(ToyWorld(), Fresh(ToyWorld(), 7, FUNDS), ACTIONS)
    ensures var sys := RunOf(ToyWorld(), Fresh(ToyWorld(), 7, FUNDS), ACTIONS);
      sys.c.s.nullifiers == {3} && sys.wal == SPENT_WALLET
  {
    hide Assumed, Fair, Act, RunOf, FairRun, Deposited, FirstWithdrawal, Next;
    var w, sys := ToyWorld(), Fresh(ToyWorld(), 7, FUNDS);
    assert [] + [ACTIONS[0]] == [ACTIONS[0]] && [ACTIONS[0]] + [ACTIONS[1]] == [ACTIONS[0], ACTIONS[1]];
    assert [ACTIONS[0], ACTIONS[1]] + [ACTIONS[2]] == ACTIONS;
    ToyAssumed();
    FairNone(w, sys);
    DeployFair();
    FairOnce(w, sys, [], ACTIONS[0]);
    ShieldCommand();
    FairOnce(w, sys, [ACTIONS[0]], ACTIONS[1]);
    UnshieldCommand();
    FairOnce(w, sys, [ACTIONS[0], ACTIONS[1]], ACTIONS[2]);
    Realisable();
  }

  lemma DeployFair()
    ensures var sys := Fresh(ToyWorld(), 7, FUNDS);
      Fair(ToyWorld(), sys, ACTIONS[0]) && Act(ToyWorld(), sys, ACTIONS[0]) == System(Deposited(0), NEW_WALLET)
  {
    hide Legal, Next, Deposited, Start;
    DeployWorks();
  }

  // ---- The wallet beside another depositor ----

  /** A deposit of one by someone else, under key 8. */
  function ForeignDeposit(): Event {
    Event(ShieldCall(OTHER, 1, 20000, 0), {OTHER}, true, ShieldSecrets(8, 12))
  }

  function ForeignDeposited(): Configuration {
    Configuration(State(Some(CONFIG), [20000], {}, 0, 0, 0, {}, FUNDS[OTHER := 0][POOL := 1]),
                  Book([Note(0, 1, 8, 12)], map[], 0, 0, 0, 0, Market(0, 0, 0, 0, 0, 0, 0)))
  }

  /** Deploying, a deposit by someone else, and a deposit by a wallet that has not synced since. */
  const SHARED: seq<Action> := [Others(Deploy()), Others(ForeignDeposit()), Mine(ShieldCmd(USER, 1, 9))]

  lemma ForeignWorks()
    requires NoZeroDivisors()
    ensures Legal(ToyWorld(), Deposited(0).s, ForeignDeposit())
    ensures Next(ToyWorld(), Deposited(0), ForeignDeposit()) == ForeignDeposited()
  {
    hide TreeQueried, Shield, ToyQueries;
    ForeignOpening();
    OneForeignQueried();
    ShieldExact(ToyHashes(), 1, 20000, 8, 12);
    assert ShieldMeans(ToyHashes(), 1, 20000, 8, 12);
    EncodesItself(1);
    assert Ones(0) == [] && Notes(0) == [] && [] + [20000] == [20000];
    assert Sound(ToyWorld(), Deposited(0).s, ForeignDeposit());
    assert Queried(ToyWorld(), ForeignDeposit());
  }

  lemma ForeignOpening()
    ensures Opening(Note(0, 1, 8, 12)) in ToyQueries().q4
  {
  }

  lemma ShieldBehind()
    requires NoZeroDivisors()
    ensures var sys, a := System(ForeignDeposited(), NEW_WALLET), Mine(ShieldCmd(USER, 1, 9));
      && SharedFair(ToyWorld(), sys, a) && !AtEnd(ToyWorld(), sys, a)
      && Act(ToyWorld(), sys, a).wal == HOLDING_WALLET && Act(ToyWorld(), sys, a).c.s.leaves == [20000, 1]
  {
    hide TreeQueried, Queried, Sound, Apply, Record;
    ForeignQueried();
    assert [20000] + [1] == [20000, 1];
    DepositWorks(ForeignDeposited(), 1);
    assert ShieldEvent(ToyHashes(), NEW_WALLET, ShieldCmd(USER, 1, 9)) == Deposit(1);
  }

  lemma SharedOnce(w: World, sys: System, actions: seq<Action>, a: Action)
    requires SharedRun(w, sys, actions) && SharedFair(w, RunOf(w, sys, actions), a)
    ensures SharedRun(w, sys, actions + [a]) && RunOf(w, sys, actions + [a]) == Act(w, RunOf(w, sys, actions), a)
    ensures AllAtEnd(w, sys, actions + [a]) <==> AllAtEnd(w, sys, actions) && AtEnd(w, RunOf(w, sys, actions), a)
  {
    hide SharedFair, Act, AtEnd;
    assert (actions + [a])[..|actions|] == actions;
  }

  lemma SharedNone(w: World, sys: System)
    ensures SharedRun(w, sys, []) && RunOf(w, sys, []) == sys
  {
  }

  /** Syncing with true events does not help: the mirror's first entry and the note's index stay wrong. */
  lemma NotRepaired(events: seq<LeafEvent>, merged: seq<Fe>)
    requires Truthful([20000, 1], events) && IsMerge([1], events, merged)
    ensures merged[0] == 1 && AllPatched([HELD], merged)[0].leafIndex == 0
  {
    assert merged[0] == [1][0];
    assert IndexOf(merged, 1) == 0;
  }

  /** A run in which one deposit by someone else leaves the wallet's mirror, and its note's index, wrong for
      good. */
  lemma ForeignShield()
    requires NoZeroDivisors()
    ensures SharedRun(ToyWorld(), Fresh(ToyWorld(), 7, FUNDS), SHARED)
    ensures !AllAtEnd(ToyWorld(), Fresh(ToyWorld(), 7, FUNDS), SHARED)
    ensures var sys := RunOf(ToyWorld(), Fresh(ToyWorld(), 7, FUNDS), SHARED);
      sys.c.s.leaves == [20000, 1] && sys.wal.leaves == [1] && sys.wal.notes == [HELD] && HELD.leafIndex == 0
  {
    hide SharedFair, AtEnd, Act, RunOf, SharedRun, AllAtEnd, Deposited, ForeignDeposited, Next;
    var w, sys := ToyWorld(), Fresh(ToyWorld(), 7, FUNDS);
    assert [] + [SHARED[0]] == [SHARED[0]] && [SHARED[0]] + [SHARED[1]] == [SHARED[0], SHARED[1]];
    assert [SHARED[0], SHARED[1]] + [SHARED[2]] == SHARED;
    SharedNone(w, sys);
    OthersShared();
    SharedOnce(w, sys, [], SHARED[0]);
    SharedOnce(w, sys, [SHARED[0]], SHARED[1]);
    ShieldBehind();
    SharedOnce(w, sys, [SHARED[0], SHARED[1]], SHARED[2]);
  }

  lemma OthersShared()
    requires NoZeroDivisors()
    ensures var sys := Fresh(ToyWorld(), 7, FUNDS);
      && SharedFair(ToyWorld(), sys, SHARED[0]) && Act(ToyWorld(), sys, SHARED[0]) == System(Deposited(0), NEW_WALLET)
    ensures var sys := System(Deposited(0), NEW_WALLET);
      && SharedFair(ToyWorld(), sys, SHARED[1])
      && Act(ToyWorld(), sys, SHARED[1]) == System(ForeignDeposited(), NEW_WALLET)
  {
    hide Legal, Next, Deposited, ForeignDeposited, Start;
    DeployWorks();
    ForeignWorks();
  }
}
