/** Solvency, single spend, payability and the market, over every run of the pool. */
module PoolTheorems {
  import opened ScalarField
  import opened Merkle
  import opened Circuits
  import opened Ledger
  import opened Bookkeeping
  import opened PoolSafety
  import opened Entrypoints
  import PoolTree

  /** The standing assumptions: r has no zero divisors, no hash collision occurs among the inputs of
      the run, and the empty tree is among those inputs. */
  ghost predicate Assumed(w: World) {
    NoZeroDivisors() && Ideal(w) && TreeQueried(w, [])
  }

  // ---- Money ----

  /** The pool can pay every unspent collateral note and the accrued fees. */
  ghost predicate Solvent(w: World, c: Configuration) {
    Balance(c.s.balances, w.self) >= UnspentCollateral(c.b) + c.s.fees
  }

  /** Conservation over every run; and the exact condition under which everything stays payable: swap
      fees are covered by the collateral swaps brought in. With zero swap fees it always holds. */
  lemma Solvency(w: World, c: Configuration)
    requires Assumed(w) && Reachable(w, c)
    ensures Balance(c.s.balances, w.self) + c.b.swapFees
         == UnspentCollateral(c.b) + c.b.swapIn + c.s.fees + c.b.surplus
    ensures Solvent(w, c) <==> c.b.swapFees <= c.b.swapIn + c.b.surplus
    ensures c.b.swapFees == 0 ==> Solvent(w, c)
  {
    hide Ideal, TreeQueried, Reachable, NotesOpen, SpendsOwned, NullifiersExact;
    ReachableHolds(w, c);
  }

  /** The same call with another swap fee. */
  function WithFee(e: Event, fee: I128): Event
    requires e.call.SwapCall?
  {
    e.(call := e.call.(swapFee := fee))
  }

  /** No proof binds the swap fee: changing it leaves an event as legal as it was, and accepted as long
      as the fee is not negative and the fee total does not overflow. */
  lemma SwapFeeUnbound(w: World, s: State, e: Event, fee: I128)
    requires e.call.SwapCall? && Legal(w, s, e) && Apply(w, s, e).Ok?
    requires 0 <= fee && s.fees + fee < I128_LIMIT
    ensures Legal(w, s, WithFee(e, fee))
    ensures Apply(w, s, WithFee(e, fee)) == Ok(Apply(w, s, e).value.(fees := s.fees + fee))
  {
    hide TreeQueried, PrivateSwap, SpendQueried, CurrentRoot;
    assert e.call.assetOut <= 1;
    assert SwapInputs(w.h, s, WithFee(e, fee).call) == SwapInputs(w.h, s, e.call);
  }

  /** Hence solvency after a swap turns on its fee alone: the swap keeps the pool solvent exactly when
      all swap fees so far, this one included, are within what swaps paid in and the surplus. */
  lemma SwapSolventIff(w: World, c: Configuration, e: Event, fee: I128)
    requires Assumed(w) && Reachable(w, c)
    requires e.call.SwapCall? && Legal(w, c.s, e) && Apply(w, c.s, e).Ok?
    requires 0 <= fee && c.s.fees + fee < I128_LIMIT
    ensures e.call.assetOut <= 1 && e.secrets.SwapSecrets?
    ensures Legal(w, c.s, WithFee(e, fee)) && Apply(w, c.s, WithFee(e, fee)).Ok?
    ensures Solvent(w, Next(w, c, WithFee(e, fee)))
       <==> c.b.swapFees + fee <= c.b.swapIn + e.secrets.swap.amountIn + c.b.surplus
  {
    ReachableHolds(w, c);
    SwapFeeUnbound(w, c.s, e, fee);
    SwapShape(w, c, e);
    var e' := WithFee(e, fee);
    var s' := Apply(w, c.s, e').value;
    StepKeeps(w, c.s, c.b, e', s');
    FeeRecorded(w, c, e, fee);
    hide Legal, Apply, Record, UnspentCollateral, TreeQueried, NotesOpen, SpendsOwned, NullifiersExact, MarketBalanced;
    assert MoneyConserved(w, s', Record(w, c.s, c.b, e'));
  }

  lemma SwapShape(w: World, c: Configuration, e: Event)
    requires NoZeroDivisors() && Inv(w, c.s, c.b)
    requires e.call.SwapCall? && Legal(w, c.s, e) && Apply(w, c.s, e).Ok?
    ensures e.call.assetOut <= 1 && e.secrets.SwapSecrets?
  {
    hide NotesOpen, SpendsOwned, NullifiersExact, TreeQueried, Sound, Queried;
    SwapAccepted(w, c.s, e, Apply(w, c.s, e).value);
  }

  lemma FeeRecorded(w: World, c: Configuration, e: Event, fee: I128)
    requires e.call.SwapCall? && e.call.assetOut <= 1 && e.secrets.SwapSecrets?
    ensures var r := Record(w, c.s, c.b, WithFee(e, fee));
      && r.swapFees == c.b.swapFees + fee && r.swapIn == c.b.swapIn + e.secrets.swap.amountIn
      && r.surplus == c.b.surplus
  {
    hide SpentPosition, LeafIndex, Commitment;
  }

  // ---- Single spend ----

  /** Whether an event is a successful spend. */
  ghost predicate SpendsNow(w: World, c: Configuration, e: Event) {
    Apply(w, c.s, e).Ok? && (e.call.UnshieldCall? || e.call.SwapCall?)
  }

  ghost function SpendCount(w: World, c: Configuration, events: seq<Event>): nat {
    if events == [] then 0
    else
      var n := |events| - 1;
      SpendCount(w, c, events[..n]) + if SpendsNow(w, Run(w, c, events[..n]), events[n]) then 1 else 0
  }

  /** Successful spends over a run: as many as distinct positions consumed, and as many as nullifiers.
      So no position is ever consumed twice, at whatever root and by whichever entrypoint. */
  lemma SingleSpend(w: World, balances: map<Address, nat>, events: seq<Event>)
    requires Assumed(w) && LegalRun(w, Start(w.self, balances), events)
    ensures var c := Run(w, Start(w.self, balances), events);
      && SpendCount(w, Start(w.self, balances), events) == |c.b.spent| == |c.s.nullifiers|
      && InjectiveOnto(NullifierMap(w.h, c.b), c.s.nullifiers) && NullifierMap(w.h, c.b).Keys == c.b.spent.Keys
  {
    var start := Start(w.self, balances);
    StartHolds(w, balances);
    RunKeeps(w, start, events);
    CountsMatch(w, start, events);
    hide TreeQueried, NotesOpen, SpendsOwned, MoneyConserved, MarketBalanced, InjectiveOnto, NullifierMap;
    var c := Run(w, start, events);
    assert NullifiersExact(w, c.s, c.b);
    assert |c.b.spent| == |c.b.spent.Keys| && |NullifierMap(w.h, c.b)| == |NullifierMap(w.h, c.b).Keys|;
    OntoSameSize(NullifierMap(w.h, c.b), c.s.nullifiers);
  }

  lemma OntoSameSize(m: map<nat, Fe>, s: set<Fe>)
    requires InjectiveOnto(m, s)
    ensures |m| == |s|
  {
  }

  lemma {:induction false} CountsMatch(w: World, c: Configuration, events: seq<Event>)
    requires NoZeroDivisors() && Ideal(w) && Inv(w, c.s, c.b) && LegalRun(w, c, events) && c.b.spends == 0
    ensures SpendCount(w, c, events) == Run(w, c, events).b.spends
  {
    if events != [] {
      var n := |events| - 1;
      CountsMatch(w, c, events[..n]);
      RunKeeps(w, c, events[..n]);
      var d := Run(w, c, events[..n]);
      if Apply(w, d.s, events[n]).Ok? {
        CountStep(w, d, events[n]);
      }
    }
  }

  lemma CountStep(w: World, d: Configuration, e: Event)
    requires NoZeroDivisors() && Inv(w, d.s, d.b) && Legal(w, d.s, e) && Apply(w, d.s, e).Ok?
    ensures Record(w, d.s, d.b, e).spends == d.b.spends + if SpendsNow(w, d, e) then 1 else 0
  {
    hide NotesOpen, SpendsOwned, NullifiersExact, TreeQueried, Queried, SpentPosition, LeafIndex, Commitment;
    if e.call.SwapCall? {
      SwapShape(w, d, e);
    }
  }

  // ---- What storage holds, in terms of the hashes ----

  /** x is the three-input hash of a spent note's key, randomness and place in its tree. */
  ghost predicate IsSpentHash(h: Hashes, b: Book, x: Fe) {
    exists p :: p in b.spent && p < |b.notes| && h.h3(b.spent[p], b.notes[p].rho, p % 256) == x
  }

  /** In every reachable configuration the leaves are the four-input hashes of the notes behind them, and the
      nullifiers are the three-input hashes of the spending keys, randomness and places of the spent ones. */
  lemma StorageIs(w: World, c: Configuration)
    requires Assumed(w) && Reachable(w, c)
    ensures |c.s.leaves| == |c.b.notes|
    ensures forall i :: 0 <= i < |c.s.leaves| ==>
      var n := c.b.notes[i]; c.s.leaves[i] == w.h.h4(n.asset, n.amount, n.ownerPk, n.rho)
    ensures forall x :: x in c.s.nullifiers <==> IsSpentHash(w.h, c.b, x)
  {
    hide Ideal, TreeQueried, Reachable, Inv, SpendsOwned, NullifiersExact, IsSpentHash;
    ReachableHolds(w, c);
    StorageParts(w, c.s, c.b);
    forall x
      ensures x in c.s.nullifiers <==> IsSpentHash(w.h, c.b, x)
    {
      UsedIsHash(w, c.s, c.b, x);
    }
  }

  lemma UsedIsHash(w: World, s: State, b: Book, x: Fe)
    requires NullifiersExact(w, s, b)
    ensures x in s.nullifiers <==> IsSpentHash(w.h, b, x)
  {
    hide NullifiersExact, NullifierAt;
    UsedBySpent(w, s, b, x);
    forall p | p in b.spent && p < |b.notes|
      ensures NullifierAt(w.h, b.notes, p, b.spent[p]) == w.h.h3(b.spent[p], b.notes[p].rho, p % 256)
    {
      NullifierIs(w.h, b.notes, p, b.spent[p]);
    }
  }

  lemma StorageParts(w: World, s: State, b: Book)
    requires Inv(w, s, b)
    ensures NotesOpen(w, s, b) && SpendsOwned(w, b) && NullifiersExact(w, s, b)
  {
    hide TreeQueried, NotesOpen, SpendsOwned, NullifiersExact, MoneyConserved, MarketBalanced;
  }

  lemma NullifierIs(h: Hashes, notes: seq<Note>, p: nat, ownerSk: Fe)
    requires p < |notes|
    ensures NullifierAt(h, notes, p, ownerSk) == h.h3(ownerSk, notes[p].rho, p % 256)
  {
    hide Slot, Reduce;
    SlotIsRemainder(p);
    SmallReduces(p % 256);
  }

  /** The place of a position within its tree. */
  lemma SlotIsRemainder(p: nat)
    ensures Slot(p) == p % 256
  {
    DepthFits();
    SlotOf(p / 256, p % 256);
  }

  /** Ownership over every run: whoever spends a note knows a preimage of its owner key under the one-input
      hash, and among the keys hashed there is no other, so only its owner spends it. */
  lemma OwnersSpend(w: World, c: Configuration)
    requires Assumed(w) && Reachable(w, c)
    ensures forall p :: p in c.b.spent ==> p < |c.b.notes| && w.h.h1(c.b.spent[p]) == c.b.notes[p].ownerPk
    ensures forall p, key ::
      p in c.b.spent && p < |c.b.notes| && key in w.q.q1 && w.h.h1(key) == c.b.notes[p].ownerPk ==> key == c.b.spent[p]
  {
    hide TreeQueried, Reachable, MoneyConserved, MarketBalanced, Inv, NotesOpen, NullifiersExact, CollisionFree;
    ReachableHolds(w, c);
    StorageParts(w, c.s, c.b);
  }

  // ---- Fees ----

  /** A solvent pool pays its admin all accrued fees, to whatever account the admin names. */
  lemma AdminIsPaid(w: World, c: Configuration, to: Address, auth: set<Address>)
    requires Assumed(w) && Reachable(w, c) && Solvent(w, c)
    requires c.s.config.Some? && c.s.config.value.admin in auth
    ensures var r := Step(w.h, w.self, c.s, WithdrawFees(to), auth, false);
      r.Ok? && r.value.fees == 0 && Transferred(c.s, r.value, w.self, to, c.s.fees)
  {
    hide Inv, Reachable, Ideal, TreeQueried, Step, Transferred, Unspent;
    ReachableHolds(w, c);
    FeesNonnegative(w, c.s, c.b);
    WithdrawFeesAnswer(w.h, w.self, c.s, to, auth, false);
  }

  // ---- Payability ----

  /** Two positions whose nullifiers coincide for a key: same randomness, same slot of different trees. */
  ghost predicate SameNullifierInput(b: Book, p: nat, ownerSk: Fe, p': nat)
    requires p < |b.notes| && p' < |b.notes| && p' in b.spent
  {
    NullifierInput(b.notes, p', b.spent[p']) == NullifierInput(b.notes, p, ownerSk)
  }

  /** Some spent position has the same key, randomness and slot. */
  ghost predicate Recurs(b: Book, p: nat, ownerSk: Fe)
    requires p < |b.notes|
  {
    exists p' :: p' in b.spent && p' < |b.notes| && SameNullifierInput(b, p, ownerSk, p')
  }

  /** A note's nullifier is unused exactly when no spent position has the same key, randomness and slot. */
  lemma NullifierFresh(w: World, s: State, b: Book, p: nat, ownerSk: Fe)
    requires Ideal(w) && Inv(w, s, b) && p < |b.notes| && NullifierInput(b.notes, p, ownerSk) in w.q.q3
    ensures NullifierAt(w.h, b.notes, p, ownerSk) in s.nullifiers <==> Recurs(b, p, ownerSk)
  {
    hide Inv, Ideal, NullifierAt, NullifierInput, SpendsOwned;
    var n := NullifierAt(w.h, b.notes, p, ownerSk);
    SpendParts(w, s, b);
    UsedBySpent(w, s, b, n);
    forall k | k in b.spent && k < |b.notes|
      ensures NullifierAt(w.h, b.notes, k, b.spent[k]) == n <==> SameNullifierInput(b, p, ownerSk, k)
    {
      SameNullifier(w, b, p, ownerSk, k);
    }
  }

  lemma SpendParts(w: World, s: State, b: Book)
    requires Inv(w, s, b)
    ensures SpendsOwned(w, b) && NullifiersExact(w, s, b) && |b.notes| == |s.leaves|
  {
    hide TreeQueried, SpendsOwned, NullifiersExact, MoneyConserved, MarketBalanced;
  }

  /** The used nullifiers are those of the spent positions. */
  lemma UsedBySpent(w: World, s: State, b: Book, n: Fe)
    requires NullifiersExact(w, s, b)
    ensures n in s.nullifiers
       <==> exists k :: k in b.spent && k < |b.notes| && NullifierAt(w.h, b.notes, k, b.spent[k]) == n
  {
    hide NullifierAt;
    var m := NullifierMap(w.h, b);
    if n in s.nullifiers {
      var k :| k in m && m[k] == n;
    }
    if k :| k in b.spent && k < |b.notes| && NullifierAt(w.h, b.notes, k, b.spent[k]) == n {
      assert k in m && m[k] == n;
    }
  }

  lemma SameNullifier(w: World, b: Book, p: nat, ownerSk: Fe, k: nat)
    requires Ideal(w) && SpendsOwned(w, b) && p < |b.notes| && k < |b.notes| && k in b.spent
    requires NullifierInput(b.notes, p, ownerSk) in w.q.q3
    ensures NullifierAt(w.h, b.notes, k, b.spent[k]) == NullifierAt(w.h, b.notes, p, ownerSk)
       <==> SameNullifierInput(b, p, ownerSk, k)
  {
    hide NullifierInput, OwnerPk, CollisionFree;
  }

  /** Within the capacity of one tree every unspent position's nullifier is unused. */
  lemma UnspentIsFresh(w: World, s: State, b: Book, p: nat, ownerSk: Fe)
    requires Ideal(w) && Inv(w, s, b) && |s.leaves| <= Pow2(DEPTH)
    requires p < |b.notes| && p !in b.spent && NullifierInput(b.notes, p, ownerSk) in w.q.q3
    ensures NullifierAt(w.h, b.notes, p, ownerSk) !in s.nullifiers
  {
    hide Ideal, Inv, Slot, NullifierAt, Pow2, Reduce;
    NullifierFresh(w, s, b, p, ownerSk);
    SpendParts(w, s, b);
    forall p' | p' in b.spent && p' < |b.notes|
      ensures !SameNullifierInput(b, p, ownerSk, p')
    {
      SlotWithinCapacity(p);
      SlotWithinCapacity(p');
    }
  }

  lemma SlotWithinCapacity(p: nat)
    requires p < Pow2(DEPTH)
    ensures Reduce(Slot(p)) == Slot(p) == p
  {
    AncestorBelowCapacity(p, DEPTH);
    DepthFits();
  }

  /** The authentication path of a leaf. */
  function PathElements(h: Hashes, leaves: seq<Fe>, index: nat): (elements: seq<Fe>)
    ensures |elements| == DEPTH
  {
    seq(DEPTH, l requires 0 <= l < DEPTH => Node(TreeOf(h), leaves, l, Sibling(Ancestor(index, l))))
  }

  lemma PathIsPath(h: Hashes, leaves: seq<Fe>, index: nat)
    ensures IsPath(TreeOf(h), leaves, index, PathElements(h, leaves, index), BitsOf(index, DEPTH))
  {
    hide Node, Ancestor;
  }

  /** Position p is in the tree whose root the pool had after n leaves; it is so from the insert of p on
      until that tree is full. */
  ghost predicate InTree(n: nat, p: nat) {
    p < n && Ancestor(n - 1, DEPTH) == Ancestor(p, DEPTH)
  }

  lemma InTreeFrom(n: nat, p: nat)
    ensures InTree(n, p) <==> p < n <= EpochStart(p, DEPTH) + Pow2(DEPTH)
  {
    hide Ancestor, Pow2;
    if p < n {
      AncestorIsDivision(n - 1, DEPTH);
      AncestorIsDivision(p, DEPTH);
      SameQuotient(n - 1, p, Ancestor(n - 1, DEPTH), Ancestor(p, DEPTH), Pow2(DEPTH));
    }
  }

  lemma SameQuotient(x: int, y: int, k: int, l: int, m: int)
    requires m > 0 && y <= x && k * m <= x < (k + 1) * m && l * m <= y < (l + 1) * m
    ensures k == l <==> x < l * m + m
  {
    ProductNonnegative(k - l - 1, m);
    ProductNonnegative(l - k - 1, m);
  }

  lemma ProductNonnegative(a: int, m: int)
    requires m > 0
    ensures a >= 0 ==> a * m >= 0
  {
  }

  function PastRoot(h: Hashes, s: State, n: nat): Fe
    requires n <= |s.leaves|
  {
    Root(TreeOf(h), DEPTH, s.leaves[..n])
  }

  /** The withdrawal of a whole note against the root the pool had after n leaves. */
  function Withdrawal(h: Hashes, s: State, b: Book, n: nat, p: nat, ownerSk: Fe, recipient: Address, field: Fe,
                      fee: I128): Call
    requires n <= |s.leaves| && p < |b.notes| && b.notes[p].amount < BOUND
  {
    UnshieldCall(PastRoot(h, s, n), NullifierAt(h, b.notes, p, ownerSk), b.notes[p].amount, recipient, field, fee)
  }

  /** That withdrawal as an event: the verifier accepts, and the owner's path is the witness. */
  function WithdrawalEvent(h: Hashes, s: State, b: Book, n: nat, p: nat, ownerSk: Fe, recipient: Address, field: Fe,
                           fee: I128): Event
    requires n <= |s.leaves| && p < |b.notes| && b.notes[p].amount < BOUND
  {
    Event(Withdrawal(h, s, b, n, p, ownerSk, recipient, field, fee), {}, true,
          UnshieldSecrets(UnshieldPrivate(ownerSk, b.notes[p].rho, PathElements(h, s.leaves[..n], p),
                                          BitsOf(p, DEPTH))))
  }

  /** The owner's witness meets the circuit at every root with the note in its tree, so the verifier's
      acceptance is sound. */
  lemma WithdrawalProvable(w: World, s: State, b: Book, n: nat, p: nat, ownerSk: Fe, recipient: Address, field: Fe,
                           fee: I128)
    requires NoZeroDivisors() && Inv(w, s, b) && p < |b.notes| && n <= |s.leaves| && InTree(n, p)
    requires b.notes[p].asset == 0 && b.notes[p].amount < BOUND && OwnerPk(w.h, ownerSk) == b.notes[p].ownerPk
    ensures Sound(w, s, WithdrawalEvent(w.h, s, b, n, p, ownerSk, recipient, field, fee))
  {
    hide TreeQueried, NullifiersExact, MoneyConserved, MarketBalanced, Spends, Root, Slot, PathElements, BitsOf;
    hide Circuits.Unshield;
    var e := WithdrawalEvent(w.h, s, b, n, p, ownerSk, recipient, field, fee);
    DepthFits();
    PathSpends(w.h, s.leaves, n, p, ownerSk, b.notes[p].rho);
    EncodesItself(b.notes[p].amount);
    UnshieldExact(w.h, DEPTH, UnshieldInputs(e.call), e.secrets.unshield);
  }

  /** What soundness of an accepted withdrawal says. */
  lemma WithdrawalSound(w: World, s: State, e: Event)
    requires Sound(w, s, e) && e.proofOk && e.call.UnshieldCall?
    ensures e.secrets.UnshieldSecrets?
    ensures exists t :: Circuits.Unshield(w.h, DEPTH, UnshieldInputs(e.call), e.secrets.unshield, t)
  {
    hide Circuits.Unshield;
  }

  /** The path of a leaf spends that leaf under its position's nullifier. */
  lemma PathSpends(h: Hashes, leaves: seq<Fe>, n: nat, p: nat, ownerSk: Fe, rho: Fe)
    requires InTree(n, p) && n <= |leaves|
    ensures Spends(h, DEPTH, Root(TreeOf(h), DEPTH, leaves[..n]), Nullifier(h, ownerSk, rho, Reduce(Slot(p))),
                   leaves[p], ownerSk, rho, PathElements(h, leaves[..n], p), BitsOf(p, DEPTH))
  {
    hide Node, Fold, LeafIndex, Ancestor, Pow2, PathElements;
    var elements, indices := PathElements(h, leaves[..n], p), BitsOf(p, DEPTH);
    PathIsPath(h, leaves[..n], p);
    PathFolds(TreeOf(h), leaves[..n], p, elements, indices);
    BitsSpellSlot(p);
    assert forall i :: 0 <= i < |indices| ==> indices[i] == Ancestor(p, i) % 2;
  }

  lemma BitsSpellSlot(p: nat)
    ensures LeafIndex(BitsOf(p, DEPTH)) == Slot(p)
  {
    hide LeafIndex, Ancestor, Pow2;
    PathIndex(p, BitsOf(p, DEPTH));
    EpochContains(p, DEPTH);
  }

  /** The owner's path hashes only what the tree hashed on its way to that root. */
  lemma PathHashesQueried(w: World, leaves: seq<Fe>, n: nat, p: nat)
    requires TreeQueried(w, leaves) && n <= |leaves| && InTree(n, p)
    ensures FoldQueried(TreeOf(w.h), w.q.q2, leaves[p], PathElements(w.h, leaves[..n], p), BitsOf(p, DEPTH))
  {
    hide NodeQueried, FoldQueried, Ancestor, PathElements, BitsOf, IsPath;
    PathIsPath(w.h, leaves[..n], p);
    PathQueried(TreeOf(w.h), w.q.q2, leaves[..n], p, PathElements(w.h, leaves[..n], p), BitsOf(p, DEPTH));
  }

  /** So the owner's withdrawal can occur: it hashes nothing new but the nullifier. */
  lemma WithdrawalLegal(w: World, s: State, b: Book, n: nat, p: nat, ownerSk: Fe, recipient: Address, field: Fe,
                        fee: I128)
    requires NoZeroDivisors() && Inv(w, s, b) && p < |b.notes| && n <= |s.leaves| && InTree(n, p)
    requires b.notes[p].asset == 0 && b.notes[p].amount < BOUND && OwnerPk(w.h, ownerSk) == b.notes[p].ownerPk
    requires ownerSk in w.q.q1 && NullifierInput(b.notes, p, ownerSk) in w.q.q3
    ensures Legal(w, s, WithdrawalEvent(w.h, s, b, n, p, ownerSk, recipient, field, fee))
  {
    hide SpendsOwned, NullifiersExact, MoneyConserved, MarketBalanced, TreeQueried, FoldQueried, LeafIndex, Slot;
    hide InTree;
    hide PathElements, BitsOf, Sound, PastRoot, NullifierAt, PoolTree.KnownRoots;
    var e := WithdrawalEvent(w.h, s, b, n, p, ownerSk, recipient, field, fee);
    WithdrawalProvable(w, s, b, n, p, ownerSk, recipient, field, fee);
    EncodesItself(b.notes[p].amount);
    BitsSpellSlot(p);
    PathHashesQueried(w, s.leaves, n, p);
    assert WithdrawnNote(w.h, e.call, e.secrets.unshield) == b.notes[p];
    assert Queried(w, e);
  }

  /** In every solvent reachable configuration the owner of an unspent collateral note of positive amount,
      with the witness of its path to any root that has the note, can submit a proven withdrawal of the
      whole of it, and the contract pays exactly when no spent position has the same key, randomness and slot in
      another tree. Within the capacity of one tree, always. */
  lemma UnspentNotePayable(w: World, c: Configuration, n: nat, p: nat, ownerSk: Fe, recipient: Address, field: Fe,
                           fee: I128)
    requires Assumed(w) && Reachable(w, c) && Solvent(w, c) && c.s.config.Some?
    requires n <= |c.s.leaves| && InTree(n, p) && p < |c.b.notes| && OwnerPk(w.h, ownerSk) == c.b.notes[p].ownerPk
    requires p !in c.b.spent && c.b.notes[p].asset == 0 && 0 < c.b.notes[p].amount < BOUND
    requires ownerSk in w.q.q1 && NullifierInput(c.b.notes, p, ownerSk) in w.q.q3
    requires 0 <= fee <= c.b.notes[p].amount && c.s.fees + fee < I128_LIMIT
    ensures var e := WithdrawalEvent(w.h, c.s, c.b, n, p, ownerSk, recipient, field, fee);
      && Legal(w, c.s, e)
      && (Apply(w, c.s, e).Ok? <==> !Recurs(c.b, p, ownerSk))
      && (|c.s.leaves| <= Pow2(DEPTH) ==> Apply(w, c.s, e).Ok?)
      && (Apply(w, c.s, e).Ok? ==>
            Transferred(c.s, Apply(w, c.s, e).value, w.self, recipient, c.b.notes[p].amount - fee))
  {
    hide NoZeroDivisors, Ideal, TreeQueried, Reachable, Solvent, Inv, Legal, Apply, NullifierInput, Recurs;
    hide InTree, WithdrawalEvent, Pow2, OwnerPk, Transferred;
    ReachableHolds(w, c);
    OwnerWithdraws(w, c, n, p, ownerSk, recipient, field, fee);
    RecipientIsPaid(w, c.s, c.b, n, p, ownerSk, recipient, field, fee);
  }

  lemma OwnerWithdraws(w: World, c: Configuration, n: nat, p: nat, ownerSk: Fe, recipient: Address, field: Fe,
                       fee: I128)
    requires NoZeroDivisors() && Ideal(w) && Inv(w, c.s, c.b) && Solvent(w, c) && c.s.config.Some?
    requires n <= |c.s.leaves| && InTree(n, p) && p < |c.b.notes| && OwnerPk(w.h, ownerSk) == c.b.notes[p].ownerPk
    requires p !in c.b.spent && c.b.notes[p].asset == 0 && 0 < c.b.notes[p].amount < BOUND
    requires ownerSk in w.q.q1 && NullifierInput(c.b.notes, p, ownerSk) in w.q.q3
    requires 0 <= fee <= c.b.notes[p].amount && c.s.fees + fee < I128_LIMIT
    ensures var e := WithdrawalEvent(w.h, c.s, c.b, n, p, ownerSk, recipient, field, fee);
      && Legal(w, c.s, e)
      && (Apply(w, c.s, e).Ok? <==> !Recurs(c.b, p, ownerSk))
      && (|c.s.leaves| <= Pow2(DEPTH) ==> Apply(w, c.s, e).Ok?)
  {
    hide NullifierAt, NullifierInput, Inv, Ideal, TreeQueried, Unspent, Pow2, Step, SameNullifierInput, Sound, InTree;
    hide PathElements, BitsOf, Legal, Recurs;
    WithdrawalLegal(w, c.s, c.b, n, p, ownerSk, recipient, field, fee);
    FeesNonnegative(w, c.s, c.b);
    NullifierFresh(w, c.s, c.b, p, ownerSk);
    if |c.s.leaves| <= Pow2(DEPTH) {
      UnspentIsFresh(w, c.s, c.b, p, ownerSk);
    }
    NotePayableIfFresh(w, c.s, c.b, n, p, ownerSk, recipient, field, fee);
  }

  /** What the recipient gets. */
  lemma RecipientIsPaid(w: World, s: State, b: Book, n: nat, p: nat, ownerSk: Fe, recipient: Address, field: Fe,
                        fee: I128)
    requires n <= |s.leaves| && p < |b.notes| && b.notes[p].amount < BOUND
    ensures var r := Apply(w, s, WithdrawalEvent(w.h, s, b, n, p, ownerSk, recipient, field, fee));
      r.Ok? ==> Transferred(s, r.value, w.self, recipient, b.notes[p].amount - fee)
  {
    hide Step, Transferred, NullifierAt, PastRoot, PathElements, BitsOf;
    var c := Withdrawal(w.h, s, b, n, p, ownerSk, recipient, field, fee);
    var r := Step(w.h, w.self, s, c, {}, true);
    if r.Ok? {
      UnshieldEffect(w.h, w.self, s, c.root, c.nullifier, c.withdrawAmount, recipient, field, fee, {}, true, r.value);
    }
  }

  lemma NotePayableIfFresh(w: World, s: State, b: Book, n: nat, p: nat, ownerSk: Fe, recipient: Address, field: Fe,
                           fee: I128)
    requires s.config.Some? && n <= |s.leaves|
    requires Balance(s.balances, w.self) >= UnspentCollateral(b) + s.fees && s.fees >= 0
    requires p < |b.notes| && p !in b.spent && b.notes[p].asset == 0 && 0 < b.notes[p].amount < BOUND
    requires 0 <= fee <= b.notes[p].amount && s.fees + fee < I128_LIMIT
    ensures Step(w.h, w.self, s, Withdrawal(w.h, s, b, n, p, ownerSk, recipient, field, fee), {}, true).Ok?
       <==> NullifierAt(w.h, b.notes, p, ownerSk) !in s.nullifiers
  {
    hide PoolTree.KnownRoots, NullifierAt, Unspent, Step, PastRoot;
    UnspentCovers(b.notes, b.spent.Keys, p);
    PastRootKnown(w.h, s, n);
    UnshieldGuards(w.h, w.self, s, Withdrawal(w.h, s, b, n, p, ownerSk, recipient, field, fee));
  }

  lemma PastRootKnown(h: Hashes, s: State, n: nat)
    requires n <= |s.leaves|
    ensures PastRoot(h, s, n) in PoolTree.KnownRoots(TreeOf(h), DEPTH, s.leaves)
  {
    hide Root;
  }

  /** With everything else in order, unshield turns on the nullifier. */
  lemma UnshieldGuards(h: Hashes, self: Address, s: State, c: Call)
    requires c.UnshieldCall? && c.withdrawAmount > 0 && 0 <= c.unshieldFee <= c.withdrawAmount
    requires s.config.Some? && c.root in PoolTree.KnownRoots(TreeOf(h), DEPTH, s.leaves)
    requires Balance(s.balances, self) >= c.withdrawAmount - c.unshieldFee && s.fees + c.unshieldFee < I128_LIMIT
    ensures Step(h, self, s, c, {}, true).Ok? <==> c.nullifier !in s.nullifiers
  {
    hide PoolTree.KnownRoots;
  }

  lemma FeesNonnegative(w: World, s: State, b: Book)
    requires Inv(w, s, b)
    ensures s.fees >= 0
  {
    hide TreeQueried, NotesOpen, SpendsOwned, NullifiersExact, MarketBalanced;
  }

  // ---- Market ----

  /** The total of all notes of an asset, spent or not, minted since the last seeding. */
  function MintedSince(b: Book, asset: Fe): nat
    requires b.market.since <= |b.notes|
  {
    Unspent(b.notes[b.market.since..], {}, asset)
  }

  /** The book's mint counters are the totals of the notes in the tree. */
  ghost predicate MintsMatch(b: Book) {
    && b.market.since <= |b.notes|
    && MintedSince(b, 1) == b.market.mintedYes && MintedSince(b, 2) == b.market.mintedNo
  }

  /** One more note. */
  lemma MintCounts(notes: seq<Note>, since: nat, n: Note, asset: Fe)
    requires since <= |notes|
    ensures Unspent((notes + [n])[since..], {}, asset)
         == Unspent(notes[since..], {}, asset) + if n.asset == asset then n.amount else 0
  {
    assert (notes + [n])[since..] == notes[since..] + [n];
    UnspentAfterMint(notes[since..], {}, n, asset);
  }

  /** The two notes of a swap: the position note counts for its own asset, the change for neither leg. */
  lemma SwapCounts(b: Book, out: Note, change: Note, asset: Fe)
    requires b.market.since <= |b.notes| && change.asset != asset
    ensures Unspent((b.notes + [out, change])[b.market.since..], {}, asset)
         == MintedSince(b, asset) + if out.asset == asset then out.amount else 0
  {
    hide Unspent;
    MintCounts(b.notes, b.market.since, out, asset);
    MintCounts(b.notes + [out], b.market.since, change, asset);
    assert b.notes + [out] + [change] == b.notes + [out, change];
  }

  /** What the book records for a swap, the market included. */
  lemma SwapMarketRecord(w: World, s: State, b: Book, e: Event)
    requires e.call.SwapCall? && e.call.assetOut <= 1 && e.secrets.SwapSecrets?
    ensures var u, r := e.secrets.swap, Record(w, s, b, e);
      && r.notes == b.notes + [PositionNote(w.h, e.call.assetOut + 1, u), ChangeNote(w.h, u)]
      && r.market == Traded(b.market, e.call.assetOut, u.amountIn, u.amountOut)
  {
    hide SpentPosition, LeafIndex, Commitment, PositionNote, ChangeNote;
  }

  lemma SwapMintsMatch(w: World, s: State, b: Book, e: Event)
    requires MintsMatch(b) && e.call.SwapCall? && e.call.assetOut <= 1 && e.secrets.SwapSecrets?
    ensures MintsMatch(Record(w, s, b, e))
  {
    hide Unspent, Record, OwnerPk;
    SwapMarketRecord(w, s, b, e);
    var out, change := PositionNote(w.h, e.call.assetOut + 1, e.secrets.swap), ChangeNote(w.h, e.secrets.swap);
    SwapCounts(b, out, change, 1);
    SwapCounts(b, out, change, 2);
  }

  /** Every other call: a seeding starts the count anew, a deposit mints collateral. */
  lemma OtherMintsMatch(w: World, s: State, b: Book, e: Event)
    requires MintsMatch(b) && !e.call.SwapCall?
    ensures MintsMatch(Record(w, s, b, e))
  {
    hide SpentPosition, LeafIndex, Commitment;
    if e.call.ShieldCall? && e.secrets.ShieldSecrets? {
      MintCounts(b.notes, b.market.since, ShieldNote(e.call, e.secrets), 1);
      MintCounts(b.notes, b.market.since, ShieldNote(e.call, e.secrets), 2);
    }
  }

  lemma NextMintsMatch(w: World, c: Configuration, e: Event)
    requires NoZeroDivisors() && Inv(w, c.s, c.b) && MintsMatch(c.b) && Legal(w, c.s, e)
    ensures MintsMatch(Next(w, c, e).b)
  {
    hide Inv, Legal, Apply, Record, MintsMatch;
    if Apply(w, c.s, e).Ok? {
      if e.call.SwapCall? {
        SwapShape(w, c, e);
        SwapMintsMatch(w, c.s, c.b, e);
      } else {
        OtherMintsMatch(w, c.s, c.b, e);
      }
    }
  }

  lemma {:induction false} RunMintsMatch(w: World, c: Configuration, events: seq<Event>)
    requires NoZeroDivisors() && Ideal(w) && Inv(w, c.s, c.b) && LegalRun(w, c, events) && MintsMatch(c.b)
    ensures MintsMatch(Run(w, c, events).b)
  {
    if events != [] {
      hide Inv, Ideal, Next, Legal, MintsMatch;
      var n := |events| - 1;
      RunMintsMatch(w, c, events[..n]);
      RunKeeps(w, c, events[..n]);
      NextMintsMatch(w, Run(w, c, events[..n]), events[n]);
    }
  }

  lemma ReachableMintsMatch(w: World, c: Configuration)
    requires Assumed(w) && Reachable(w, c)
    ensures MintsMatch(c.b)
  {
    hide Inv, Ideal, TreeQueried, LegalRun, Run;
    var balances, events :|
      LegalRun(w, Start(w.self, balances), events) && Run(w, Start(w.self, balances), events) == c;
    StartHolds(w, balances);
    RunMintsMatch(w, Start(w.self, balances), events);
  }

  /** Since the last seeding the product of the reserves is constant, positive reserves stay positive,
      and each leg balances: what is left of it plus the notes of its asset minted since equals the seed
      plus what was paid into it. */
  lemma MarketOverRuns(w: World, c: Configuration)
    requires Assumed(w) && Reachable(w, c)
    ensures var m := c.b.market;
      && c.s.yes * c.s.no == m.seedYes * m.seedNo
      && (m.seedYes > 0 && m.seedNo > 0 ==> c.s.yes > 0 && c.s.no > 0)
      && m.since <= |c.b.notes|
      && c.s.yes + MintedSince(c.b, 1) == m.seedYes + m.paidYes
      && c.s.no + MintedSince(c.b, 2) == m.seedNo + m.paidNo
  {
    hide Ideal, TreeQueried, Reachable, NotesOpen, SpendsOwned, NullifiersExact, MoneyConserved, MintedSince;
    ReachableHolds(w, c);
    ReachableMintsMatch(w, c);
    var m := c.b.market;
    if m.seedYes > 0 && m.seedNo > 0 {
      PositiveProduct(m.seedYes, m.seedNo);
    }
  }

  /** What one accepted swap does to the legs, in terms of notes: the leg of the new position note's asset
      shrinks by that note's amount, the other grows by what the input note exceeds its change. */
  lemma SwapMovesLegs(w: World, c: Configuration, e: Event)
    requires Assumed(w) && Reachable(w, c) && e.call.SwapCall? && Legal(w, c.s, e) && Apply(w, c.s, e).Ok?
    ensures var d, n := Next(w, c, e), |c.b.notes|;
      && |d.b.notes| == n + 2 && d.b.notes[..n] == c.b.notes && d.b.notes[n + 1].asset == 0
      && e.secrets.SwapSecrets?
      && var out, paid := d.b.notes[n], e.secrets.swap.inAmount - d.b.notes[n + 1].amount;
         || (out.asset == 1 && d.s.yes == c.s.yes - out.amount && d.s.no == c.s.no + paid)
         || (out.asset == 2 && d.s.no == c.s.no - out.amount && d.s.yes == c.s.yes + paid)
  {
    hide Ideal, TreeQueried, Reachable, NotesOpen, SpendsOwned, NullifiersExact, MoneyConserved, Record, Sound, Queried;
    hide OwnerPk, Spends, Commitment, CurrentRoot, Sub;
    ReachableHolds(w, c);
    SwapAccepted(w, c.s, e, Apply(w, c.s, e).value);
    SwapMarketRecord(w, c.s, c.b, e);
  }

  lemma PositiveProduct(x: int, y: int)
    requires x > 0 && y > 0
    ensures x * y > 0
  {
  }

  // ---- History and authority ----

  /** Leaves are only appended, nullifiers only added, and a root once known stays known. */
  ghost predicate Extends(h: Hashes, s: State, s': State) {
    s.leaves <= s'.leaves && s.nullifiers <= s'.nullifiers && Known(h, s) <= Known(h, s')
  }

  lemma StepExtends(w: World, s: State, b: Book, e: Event, s': State)
    requires Inv(w, s, b) && Apply(w, s, e) == Ok(s')
    ensures Extends(w.h, s, s')
  {
    hide TreeQueried, NotesOpen, SpendsOwned, NullifiersExact, MoneyConserved, MarketBalanced, PoolTree.KnownRoots;
    assert s.leaves <= s'.leaves && s.nullifiers <= s'.nullifiers && (s.config.Some? ==> s'.config.Some?);
    PrefixKnown(w.h, s.leaves, s'.leaves);
  }

  lemma PrefixKnown(h: Hashes, s: seq<Fe>, t: seq<Fe>)
    requires s <= t
    ensures PoolTree.KnownRoots(TreeOf(h), DEPTH, s) <= PoolTree.KnownRoots(TreeOf(h), DEPTH, t)
  {
    hide Root;
    forall n | 0 <= n <= |s|
      ensures Root(TreeOf(h), DEPTH, s[..n]) in PoolTree.KnownRoots(TreeOf(h), DEPTH, t)
    {
      assert s[..n] == t[..n];
    }
  }

  /** From any point of a run on, the history only grows: a withdrawal proven against some root can still
      be submitted however many leaves are inserted in between. */
  lemma {:induction false} HistoryGrows(w: World, c: Configuration, events: seq<Event>, n: nat)
    requires NoZeroDivisors() && Ideal(w) && Inv(w, c.s, c.b) && LegalRun(w, c, events) && n <= |events|
    ensures Extends(w.h, Run(w, c, events[..n]).s, Run(w, c, events).s)
  {
    hide Inv, Ideal, Next, Legal, Known;
    if n == |events| {
      assert events[..n] == events;
    } else {
      hide Extends;
      var m := |events| - 1;
      assert events[..m][..n] == events[..n];
      HistoryGrows(w, c, events[..m], n);
      RunKeeps(w, c, events[..m]);
      var d := Run(w, c, events[..m]);
      NextExtends(w, d, events[m]);
      ExtendsTransitive(w.h, Run(w, c, events[..n]).s, d.s, Next(w, d, events[m]).s);
    }
  }

  lemma NextExtends(w: World, c: Configuration, e: Event)
    requires Inv(w, c.s, c.b)
    ensures Extends(w.h, c.s, Next(w, c, e).s)
  {
    hide Inv, Known, Record, Apply;
    if Apply(w, c.s, e).Ok? {
      StepExtends(w, c.s, c.b, e, Apply(w, c.s, e).value);
    }
  }

  lemma ExtendsTransitive(h: Hashes, s: State, t: State, u: State)
    requires Extends(h, s, t) && Extends(h, t, u)
    ensures Extends(h, s, u)
  {
    hide Known;
  }

  // ---- Accounts ----

  /** What an account paid in a call it signed. */
  function Paid(w: World, s: State, e: Event, a: Address): nat {
    if Apply(w, s, e).Err? || a !in e.auth then 0
    else
      match e.call
      case ShieldCall(from, amount, _, _) => if from == a && amount > 0 then amount else 0
      case OutsideTransfer(payer, _, sum) => if payer == a then sum else 0
      case _ => 0
  }

  /** What an account got in a call: a withdrawal or the fees paid to it, or a transfer. */
  function Received(w: World, s: State, e: Event, a: Address): nat {
    if Apply(w, s, e).Err? then 0
    else
      match e.call
      case UnshieldCall(_, _, amount, recipient, _, fee) => if recipient == a && amount > fee then amount - fee else 0
      case WithdrawFees(to) => if to == a && s.fees > 0 then s.fees else 0
      case OutsideTransfer(_, payee, sum) => if payee == a then sum else 0
      case _ => 0
  }

  /** What it paid and what it got over a run. */
  ghost function PaidOver(w: World, c: Configuration, events: seq<Event>, a: Address): nat {
    if events == [] then 0
    else
      var n := |events| - 1;
      PaidOver(w, c, events[..n], a) + Paid(w, Run(w, c, events[..n]).s, events[n], a)
  }

  ghost function ReceivedOver(w: World, c: Configuration, events: seq<Event>, a: Address): nat {
    if events == [] then 0
    else
      var n := |events| - 1;
      ReceivedOver(w, c, events[..n], a) + Received(w, Run(w, c, events[..n]).s, events[n], a)
  }

  lemma PaidInWithdrawal(w: World, s: State, e: Event, s': State, a: Address)
    requires Apply(w, s, e) == Ok(s') && a != w.self && e.call.UnshieldCall?
    ensures Balance(s'.balances, a) == Balance(s.balances, a) - Paid(w, s, e, a) + Received(w, s, e, a)
  {
    hide Known;
  }

  lemma PaidInTransfer(w: World, s: State, e: Event, s': State, a: Address)
    requires Apply(w, s, e) == Ok(s') && a != w.self
    requires e.call.ShieldCall? || e.call.WithdrawFees? || e.call.OutsideTransfer?
    ensures Balance(s'.balances, a) == Balance(s.balances, a) - Paid(w, s, e, a) + Received(w, s, e, a)
  {
    hide StepUnshield, StepSwap, StepInit, StepSeed, StepDenied;
  }

  lemma PaidInOthers(w: World, s: State, e: Event, s': State, a: Address)
    requires Apply(w, s, e) == Ok(s') && a != w.self
    requires e.call.Init? || e.call.SeedReserves? || e.call.SetDenied? || e.call.SwapCall?
    ensures Balance(s'.balances, a) == Balance(s.balances, a) - Paid(w, s, e, a) + Received(w, s, e, a)
  {
    hide StepUnshield, StepShield, StepWithdraw, StepTransfer, SwapGuards, Balance;
  }

  lemma PaidInStep(w: World, s: State, e: Event, s': State, a: Address)
    requires Apply(w, s, e) == Ok(s') && a != w.self
    ensures Balance(s'.balances, a) == Balance(s.balances, a) - Paid(w, s, e, a) + Received(w, s, e, a)
  {
    hide Apply, Paid, Received, Balance;
    if e.call.UnshieldCall? {
      PaidInWithdrawal(w, s, e, s', a);
    } else if e.call.ShieldCall? || e.call.WithdrawFees? || e.call.OutsideTransfer? {
      PaidInTransfer(w, s, e, s', a);
    } else {
      PaidInOthers(w, s, e, s', a);
    }
  }

  lemma PaidInNext(w: World, c: Configuration, e: Event, a: Address)
    requires a != w.self
    ensures Balance(Next(w, c, e).s.balances, a)
         == Balance(c.s.balances, a) - Paid(w, c.s, e, a) + Received(w, c.s, e, a)
  {
    if Apply(w, c.s, e).Ok? {
      hide Apply, Paid, Received, Record;
      PaidInStep(w, c.s, e, Apply(w, c.s, e).value, a);
    }
  }

  /** Over any run, from anywhere, what an account other than the pool ends with is what it had, less what it
      paid in calls it signed, plus what it got. So nobody loses but by their own signature. */
  lemma {:induction false} OnlySignersPay(w: World, c: Configuration, events: seq<Event>, a: Address)
    requires a != w.self
    ensures Balance(Run(w, c, events).s.balances, a)
         == Balance(c.s.balances, a) - PaidOver(w, c, events, a) + ReceivedOver(w, c, events, a)
  {
    if events != [] {
      hide Next, Paid, Received, Balance;
      var n := |events| - 1;
      OnlySignersPay(w, c, events[..n], a);
      PaidInNext(w, Run(w, c, events[..n]), events[n], a);
    }
  }
}
