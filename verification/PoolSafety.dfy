/** What every call keeps, and what therefore holds over every run of the pool. */
module PoolSafety {
  import opened ScalarField
  import opened Merkle
  import opened Outcomes
  import opened Circuits
  import opened Ledger
  import opened Bookkeeping
  import PoolTree

  lemma DepthFits()
    ensures Pow2(DEPTH) == 256 <= R
  {
    assert Pow2(4) == 16;
  }

  lemma SlotOf(k: nat, j: nat)
    requires j < Pow2(DEPTH)
    ensures Slot(k * Pow2(DEPTH) + j) == j
  {
    AncestorOfSum(k, j, DEPTH);
  }

  // ---- Binding across history ----

  /** A spend accepted against any root there has ever been is of a leaf the pool inserted, at the slot
      its path spells - however many trees have been filled since. */
  lemma SpendBinds(w: World, leaves: seq<Fe>, root: Fe, note: Fe, elements: seq<Fe>, indices: seq<Fe>) returns (p: nat)
    requires Ideal(w) && TreeQueried(w, leaves) && note != 0
    requires root in PoolTree.KnownRoots(TreeOf(w.h), DEPTH, leaves)
    requires |elements| == |indices| == DEPTH && IsBinary(indices)
    requires Fold(TreeOf(w.h), note, elements, indices) == root
    requires FoldQueried(TreeOf(w.h), w.q.q2, note, elements, indices)
    ensures Holds(leaves, p, note, LeafIndex(indices))
  {
    hide Node, Fold, LeafIndex, FoldQueried, NodeQueried, Slot, EpochStart, Ancestor, CollisionFree;
    var sc := TreeOf(w.h);
    var n: nat :| n <= |leaves| && root == Root(sc, DEPTH, leaves[..n]);
    LeafIndexBound(indices);
    if n == 0 {
      EmptyRoot(sc, leaves[..0]);
      FoldBinds(sc, w.q.q2, [], 0, note, elements, indices);
      assert false;
    } else {
      var k := Ancestor(n - 1, DEPTH);
      NonemptyRoot(sc, leaves[..n]);
      FoldBinds(sc, w.q.q2, leaves[..n], k, note, elements, indices);
      p := k * Pow2(DEPTH) + LeafIndex(indices);
      SlotOf(k, LeafIndex(indices));
    }
  }

  lemma EmptyRoot(sc: Scheme<Fe>, s: seq<Fe>)
    requires s == []
    ensures Root(sc, DEPTH, s) == Node(sc, [], DEPTH, 0)
  {
    EmptyNode(sc, s, DEPTH, 0);
  }

  lemma NonemptyRoot(sc: Scheme<Fe>, s: seq<Fe>)
    requires s != []
    ensures Root(sc, DEPTH, s) == Node(sc, s, DEPTH, Ancestor(|s| - 1, DEPTH))
  {
  }

  /** An accepted spend with a fresh nullifier consumes an unspent position that holds exactly the note
      its witness opens, and its nullifier is that position's. */
  lemma SpendIsFresh(w: World, s: State, b: Book, root: Fe, nullifier: Fe, note: Note, ownerSk: Fe,
                     elements: seq<Fe>, indices: seq<Fe>)
    requires Ideal(w) && Inv(w, s, b)
    requires root in PoolTree.KnownRoots(TreeOf(w.h), DEPTH, s.leaves) && nullifier !in s.nullifiers
    requires Spends(w.h, DEPTH, root, nullifier, Commitment(w.h, note), ownerSk, note.rho, elements, indices)
    requires SpendQueried(w, note, ownerSk, elements, indices) && OwnerPk(w.h, ownerSk) == note.ownerPk
    ensures var p := SpentPosition(s.leaves, Commitment(w.h, note), LeafIndex(indices));
      && p < |b.notes| && b.notes[p] == note && p !in b.spent
      && nullifier == NullifierAt(w.h, b.notes, p, ownerSk) && NullifierInput(b.notes, p, ownerSk) in w.q.q3
  {
    hide Fold, LeafIndex, FoldQueried, Slot, MoneyConserved, MarketBalanced, TreeQueried, CollisionFree, IsBinary;
    hide PoolTree.KnownRoots;
    var c := Commitment(w.h, note);
    assert c != 0 by {
      assert Opening(note) in w.q.q4;
    }
    var q := SpendBinds(w, s.leaves, root, c, elements, indices);
    var p := SpentPosition(s.leaves, c, LeafIndex(indices));
    assert Holds(s.leaves, p, c, LeafIndex(indices));
    assert Opening(b.notes[p]) == Opening(note);
    assert p in b.spent ==> p in NullifierMap(w.h, b);
  }

  // ---- Minting and spending ----

  ghost predicate NotesHold(w: World, s: State, b: Book) {
    NotesOpen(w, s, b) && SpendsOwned(w, b) && NullifiersExact(w, s, b)
  }

  ghost predicate Mintable(w: World, n: Note) {
    n.amount < BOUND && n.asset <= 2 && Opening(n) in w.q.q4
  }

  function Minted(h: Hashes, s: State, n: Note): State { s.(leaves := s.leaves + [Commitment(h, n)]) }

  function Entered(b: Book, n: Note): Book { b.(notes := b.notes + [n]) }

  lemma MintKeeps(w: World, s: State, b: Book, n: Note)
    requires NotesHold(w, s, b) && Mintable(w, n)
    ensures NotesHold(w, Minted(w.h, s, n), Entered(b, n))
    ensures UnspentCollateral(Entered(b, n)) == UnspentCollateral(b) + if n.asset == 0 then n.amount else 0
  {
    hide NotesOpen, SpendsOwned, NullifiersExact, Mintable, Unspent;
    MintNotes(w, s, b, n);
    MintNullifiers(w, s, b, n);
    UnspentAfterMint(b.notes, b.spent.Keys, n, 0);
  }

  lemma MintNotes(w: World, s: State, b: Book, n: Note)
    requires NotesOpen(w, s, b) && SpendsOwned(w, b) && Mintable(w, n)
    ensures NotesOpen(w, Minted(w.h, s, n), Entered(b, n)) && SpendsOwned(w, Entered(b, n))
    ensures |b.notes| !in b.spent
  {
    hide NullifierInput, OwnerPk, Commitment;
    NullifierFrame(w.h, b, n);
  }

  lemma MintNullifiers(w: World, s: State, b: Book, n: Note)
    requires SpendsOwned(w, b) && NullifiersExact(w, s, b)
    ensures NullifiersExact(w, Minted(w.h, s, n), Entered(b, n))
  {
    hide NullifierAt, NullifierInput, OwnerPk, InjectiveOnto, Commitment;
    NullifierFrame(w.h, b, n);
    assert NullifierMap(w.h, Entered(b, n)) == NullifierMap(w.h, b);
  }

  lemma NullifierFrame(h: Hashes, b: Book, n: Note)
    ensures forall p: nat, k :: p < |b.notes| ==>
      NullifierAt(h, Entered(b, n).notes, p, k) == NullifierAt(h, b.notes, p, k)
    ensures forall p: nat, k :: p < |b.notes| ==>
      NullifierInput(Entered(b, n).notes, p, k) == NullifierInput(b.notes, p, k)
  {
  }

  function Marked(s: State, nullifier: Fe): State { s.(nullifiers := s.nullifiers + {nullifier}) }

  function Struck(b: Book, p: nat, ownerSk: Fe): Book { b.(spent := b.spent[p := ownerSk], spends := b.spends + 1) }

  lemma SpendKeeps(w: World, s: State, b: Book, p: nat, ownerSk: Fe, nullifier: Fe)
    requires NotesHold(w, s, b)
    requires p < |b.notes| && p !in b.spent && b.notes[p].asset == 0
    requires ownerSk in w.q.q1 && OwnerPk(w.h, ownerSk) == b.notes[p].ownerPk
    requires NullifierInput(b.notes, p, ownerSk) in w.q.q3
    requires nullifier == NullifierAt(w.h, b.notes, p, ownerSk) && nullifier !in s.nullifiers
    ensures NotesHold(w, Marked(s, nullifier), Struck(b, p, ownerSk))
    ensures UnspentCollateral(Struck(b, p, ownerSk)) == UnspentCollateral(b) - b.notes[p].amount
  {
    hide NullifierAt, NotesOpen, SpendsOwned, NullifiersExact, UnspentCollateral, OwnerPk;
    SpendsOwnedGrows(w, s, b, p, ownerSk, nullifier);
    NullifiersGrow(w, s, b, p, ownerSk, nullifier);
    SpendTotal(b, p, ownerSk);
  }

  lemma SpendTotal(b: Book, p: nat, ownerSk: Fe)
    requires p < |b.notes| && p !in b.spent && b.notes[p].asset == 0
    ensures UnspentCollateral(Struck(b, p, ownerSk)) == UnspentCollateral(b) - b.notes[p].amount
  {
    assert Struck(b, p, ownerSk).spent.Keys == b.spent.Keys + {p};
    UnspentAfterSpend(b.notes, b.spent.Keys, p, 0);
  }

  lemma NullifiersGrow(w: World, s: State, b: Book, p: nat, ownerSk: Fe, nullifier: Fe)
    requires SpendsOwned(w, b) && NullifiersExact(w, s, b) && p < |b.notes| && p !in b.spent
    requires nullifier == NullifierAt(w.h, b.notes, p, ownerSk) && nullifier !in s.nullifiers
    ensures NullifiersExact(w, Marked(s, nullifier), Struck(b, p, ownerSk))
  {
    hide NullifierAt, InjectiveOnto, NullifierMap, SpendsOwned;
    var b' := Struck(b, p, ownerSk);
    assert b'.spent.Keys == b.spent.Keys + {p};
    NullifierMapGrows(w, b, p, ownerSk);
    InjectiveOntoGrows(NullifierMap(w.h, b), s.nullifiers, p, nullifier);
    assert |b'.spent| == |b'.spent.Keys| && |b.spent| == |b.spent.Keys|;
  }

  lemma SpendsOwnedGrows(w: World, s: State, b: Book, p: nat, ownerSk: Fe, nullifier: Fe)
    requires NotesOpen(w, s, b) && SpendsOwned(w, b) && p < |b.notes| && b.notes[p].asset == 0
    requires ownerSk in w.q.q1 && OwnerPk(w.h, ownerSk) == b.notes[p].ownerPk
    requires NullifierInput(b.notes, p, ownerSk) in w.q.q3
    ensures NotesOpen(w, Marked(s, nullifier), Struck(b, p, ownerSk)) && SpendsOwned(w, Struck(b, p, ownerSk))
  {
    hide OwnerPk;
  }

  lemma NullifierMapGrows(w: World, b: Book, p: nat, ownerSk: Fe)
    requires p < |b.notes| && p !in b.spent && SpendsOwned(w, b)
    ensures NullifierMap(w.h, Struck(b, p, ownerSk))
         == NullifierMap(w.h, b)[p := NullifierAt(w.h, b.notes, p, ownerSk)]
  {
    hide NullifierAt, OwnerPk;
  }

  lemma InjectiveOntoGrows(m: map<nat, Fe>, s: set<Fe>, p: nat, n: Fe)
    requires InjectiveOnto(m, s) && p !in m && n !in s
    ensures InjectiveOnto(m[p := n], s + {n})
  {
    var m' := m[p := n];
    forall x | x in s + {n}
      ensures exists k :: k in m' && m'[k] == x
    {
      ImageGrows(m, m', s, p, n, x);
    }
    SizesGrow(m, s, p, n);
    StillInjective(m, m', s, p, n);
  }

  lemma ImageGrows(m: map<nat, Fe>, m': map<nat, Fe>, s: set<Fe>, p: nat, n: Fe, x: Fe)
    requires InjectiveOnto(m, s) && p !in m && x in s + {n} && m' == m[p := n]
    ensures exists k :: k in m' && m'[k] == x
  {
    if x == n {
      assert p in m' && m'[p] == x;
    } else {
      var k :| k in m && m[k] == x;
      assert k in m' && m'[k] == x;
    }
  }

  lemma StillInjective(m: map<nat, Fe>, m': map<nat, Fe>, s: set<Fe>, p: nat, n: Fe)
    requires InjectiveOnto(m, s) && p !in m && n !in s && m' == m[p := n]
    ensures forall k :: k in m' ==> m'[k] in s + {n}
    ensures forall k, l :: k in m' && l in m' && m'[k] == m'[l] ==> k == l
  {
  }

  lemma SizesGrow(m: map<nat, Fe>, s: set<Fe>, p: nat, n: Fe)
    requires |m| == |s| && p !in m && n !in s
    ensures |m[p := n]| == |s + {n}|
  {
    assert m[p := n].Keys == m.Keys + {p};
    assert |m[p := n]| == |m[p := n].Keys| && |m| == |m.Keys|;
  }

  // ---- One lemma per kind of call ----

  lemma PaymentMoves(m: map<Address, nat>, payer: Address, payee: Address, sum: nat, a: Address)
    requires Pay(m, payer, payee, sum).Some?
    ensures Balance(Pay(m, payer, payee, sum).value, a)
         == Balance(m, a) - (if a == payer then sum else 0) + if a == payee then sum else 0
  {
  }

  lemma EncodesItself(v: I128)
    requires v >= 0
    ensures I128ToFr(v) == v
  {
  }

  ghost predicate Succeeds(w: World, s: State, e: Event, s': State) {
    Legal(w, s, e) && Apply(w, s, e) == Ok(s')
  }

  lemma ShieldKeeps(w: World, s: State, b: Book, e: Event, s': State)
    requires NoZeroDivisors() && Inv(w, s, b) && Succeeds(w, s, e, s') && e.call.ShieldCall?
    ensures Inv(w, s', Record(w, s, b, e))
  {
    hide NotesOpen, SpendsOwned, NullifiersExact, TreeQueried, Unspent, Pow2;
    var c, n := e.call, ShieldNote(e.call, e.secrets);
    EncodesItself(c.amount);
    ShieldExact(w.h, I128ToFr(c.amount), c.commitment, n.ownerPk, n.rho);
    MintKeeps(w, s, b, n);
    NotesHoldFrame(w, Minted(w.h, s, n), s', Entered(b, n), Record(w, s, b, e));
    PaymentMoves(s.balances, c.from, w.self, c.amount, w.self);
  }

  /** The note part of the invariant reads only leaves, nullifiers, notes, spent positions and their count. */
  lemma NotesHoldFrame(w: World, s: State, s': State, b: Book, b': Book)
    requires NotesHold(w, s, b)
    requires s'.leaves == s.leaves && s'.nullifiers == s.nullifiers
    requires b'.notes == b.notes && b'.spent == b.spent && b'.spends == b.spends
    ensures NotesHold(w, s', b') && UnspentCollateral(b') == UnspentCollateral(b)
  {
    hide NullifierAt, InjectiveOnto;
    assert NullifierMap(w.h, b') == NullifierMap(w.h, b);
  }

  lemma UnshieldKeeps(w: World, s: State, b: Book, e: Event, s': State)
    requires NoZeroDivisors() && Ideal(w) && Inv(w, s, b) && Succeeds(w, s, e, s') && e.call.UnshieldCall?
    ensures Inv(w, s', Record(w, s, b, e))
  {
    hide NotesOpen, SpendsOwned, NullifiersExact, TreeQueried, Unspent, Pow2, Ideal, Spends, NullifierAt;
    hide PoolTree.KnownRoots, LeafIndex, SpentPosition, Holds, MoneyConserved, MarketBalanced, UnspentCollateral;
    var c, u := e.call, e.secrets.unshield;
    var n := WithdrawnNote(w.h, c, u);
    EncodesItself(c.withdrawAmount);
    DepthFits();
    UnshieldExact(w.h, DEPTH, UnshieldInputs(c), u);
    SpendIsFresh(w, s, b, c.root, c.nullifier, n, u.ownerSk, u.elements, u.indices);
    var p := SpentPosition(s.leaves, Commitment(w.h, n), LeafIndex(u.indices));
    SpendKeeps(w, s, b, p, u.ownerSk, c.nullifier);
    NotesHoldFrame(w, Marked(s, c.nullifier), s', Struck(b, p, u.ownerSk), Record(w, s, b, e));
    UnshieldTotals(w, s, b, e, s');
  }

  /** Money and market after a withdrawal, from the totals alone. */
  lemma UnshieldTotals(w: World, s: State, b: Book, e: Event, s': State)
    requires MoneyConserved(w, s, b) && MarketBalanced(s, b)
    requires e.call.UnshieldCall? && e.secrets.UnshieldSecrets? && Apply(w, s, e) == Ok(s')
    requires UnspentCollateral(Record(w, s, b, e)) == UnspentCollateral(b) - e.call.withdrawAmount
    ensures MoneyConserved(w, s', Record(w, s, b, e)) && MarketBalanced(s', Record(w, s, b, e))
  {
    hide UnspentCollateral, SpentPosition, LeafIndex, Commitment, PoolTree.KnownRoots;
    var c := e.call;
    if c.withdrawAmount > c.unshieldFee {
      PaymentMoves(s.balances, w.self, c.recipient, c.withdrawAmount - c.unshieldFee, w.self);
    }
  }

  lemma CurrentRootKnown(h: Hashes, leaves: seq<Fe>)
    ensures Root(TreeOf(h), DEPTH, leaves) in PoolTree.KnownRoots(TreeOf(h), DEPTH, leaves)
  {
    hide Root;
    assert leaves[..|leaves|] == leaves;
    assert Root(TreeOf(h), DEPTH, leaves[..|leaves|]) in PoolTree.KnownRoots(TreeOf(h), DEPTH, leaves);
  }

  /** What an accepted swap means for the contract's own numbers. */
  ghost predicate SwapFacts(w: World, s: State, c: Call, u: SwapPrivate)
    requires c.SwapCall? && c.assetOut <= 1
  {
    var (inBefore, outBefore) := Framed(c.assetOut, s.yes, s.no);
    && u.inAmount < BOUND && u.amountIn <= u.inAmount && u.amountOut <= outBefore < BOUND
    && c.reserveInAfter == inBefore + u.amountIn && c.reserveOutAfter == outBefore - u.amountOut
    && inBefore * outBefore == c.reserveInAfter * c.reserveOutAfter
    && c.outCommitment == Commitment(w.h, PositionNote(w.h, c.assetOut + 1, u))
    && c.changeCommitment == Commitment(w.h, ChangeNote(w.h, u))
    && ChangeNote(w.h, u).amount == u.inAmount - u.amountIn
    && Spends(w.h, DEPTH, CurrentRoot(w.h, s), c.nullifierIn, Commitment(w.h, TradedNote(w.h, u)),
              u.ownerSk, u.rhoIn, u.elements, u.indices)
  }

  lemma SwapAccepted(w: World, s: State, e: Event, s': State)
    requires NoZeroDivisors() && s.yes >= 0 && s.no >= 0 && Succeeds(w, s, e, s') && e.call.SwapCall?
    ensures e.call.assetOut <= 1 && e.secrets.SwapSecrets? && SwapFacts(w, s, e.call, e.secrets.swap)
  {
    hide TreeQueried, Spends, PrivateSwap, Pow2, FoldQueried, Queried, CurrentRoot;
    var c, u := e.call, e.secrets.swap;
    var p := SwapInputs(w.h, s, c);
    EncodesItself(c.reserveInBefore);
    EncodesItself(c.reserveOutBefore);
    EncodesItself(c.reserveInAfter);
    EncodesItself(c.reserveOutAfter);
    DepthFits();
    var t :| PrivateSwap(w.h, DEPTH, p, u, t);
    SwapSound(w.h, DEPTH, p, u, t);
    DifferenceInRange(u.inAmount, u.amountIn);
  }

  /** Money and market after a swap, from the totals alone. */
  lemma SwapTotals(w: World, s: State, b: Book, e: Event, s': State)
    requires MoneyConserved(w, s, b) && MarketBalanced(s, b)
    requires e.call.SwapCall? && e.call.assetOut <= 1 && e.secrets.SwapSecrets?
    requires Apply(w, s, e) == Ok(s') && SwapFacts(w, s, e.call, e.secrets.swap)
    requires UnspentCollateral(Record(w, s, b, e)) == UnspentCollateral(b) - e.secrets.swap.amountIn
    ensures MoneyConserved(w, s', Record(w, s, b, e)) && MarketBalanced(s', Record(w, s, b, e))
  {
    hide Apply, Record, SwapFacts, MarketBalanced, UnspentCollateral;
    SwapTreasury(w, s, e, s');
    SwapLedger(w, s, b, e);
    SwapReserves(w, s, b, e, s');
  }

  lemma SwapTreasury(w: World, s: State, e: Event, s': State)
    requires e.call.SwapCall? && Apply(w, s, e) == Ok(s')
    ensures s'.balances == s.balances && s'.fees == s.fees + e.call.swapFee && e.call.swapFee >= 0
  {
  }

  lemma SwapLedger(w: World, s: State, b: Book, e: Event)
    requires e.call.SwapCall? && e.call.assetOut <= 1 && e.secrets.SwapSecrets?
    ensures var u, r := e.secrets.swap, Record(w, s, b, e);
      && r.swapIn == b.swapIn + u.amountIn && r.swapFees == b.swapFees + e.call.swapFee && r.surplus == b.surplus
      && r.market == Traded(b.market, e.call.assetOut, u.amountIn, u.amountOut)
  {
    hide SpentPosition, LeafIndex, Commitment;
  }

  lemma SwapReserves(w: World, s: State, b: Book, e: Event, s': State)
    requires MarketBalanced(s, b) && e.call.SwapCall? && e.call.assetOut <= 1 && e.secrets.SwapSecrets?
    requires Apply(w, s, e) == Ok(s') && SwapFacts(w, s, e.call, e.secrets.swap)
    ensures MarketBalanced(s', Record(w, s, b, e))
  {
    hide Record, Apply, Spends, CurrentRoot, Commitment;
    SwapLedger(w, s, b, e);
    SwapReservesStored(w, s, e, s');
  }

  lemma SwapReservesStored(w: World, s: State, e: Event, s': State)
    requires e.call.SwapCall? && Apply(w, s, e) == Ok(s')
    ensures e.call.assetOut == ASSET_YES ==> s'.yes == e.call.reserveOutAfter && s'.no == e.call.reserveInAfter
    ensures e.call.assetOut == ASSET_NO ==> s'.yes == e.call.reserveInAfter && s'.no == e.call.reserveOutAfter
    ensures e.call.reserveInAfter >= 0 && e.call.reserveOutAfter >= 0
  {
  }

  /** What a successful swap does to storage. */
  lemma SwapStores(w: World, s: State, e: Event, s': State)
    requires e.call.SwapCall? && Apply(w, s, e) == Ok(s')
    ensures e.call.assetOut <= 1 && e.call.nullifierIn !in s.nullifiers && s.config.Some? && s'.config.Some?
    ensures s'.leaves == s.leaves + [e.call.outCommitment] + [e.call.changeCommitment]
    ensures s'.nullifiers == s.nullifiers + {e.call.nullifierIn}
  {
  }

  ghost function SwapPosition(w: World, s: State, u: SwapPrivate): nat {
    SpentPosition(s.leaves, Commitment(w.h, TradedNote(w.h, u)), LeafIndex(u.indices))
  }

  lemma SwapSpends(w: World, s: State, b: Book, c: Call, u: SwapPrivate)
    requires Ideal(w) && Inv(w, s, b) && c.SwapCall? && c.assetOut <= 1
    requires SwapFacts(w, s, c, u) && c.nullifierIn !in s.nullifiers
    requires SpendQueried(w, TradedNote(w.h, u), u.ownerSk, u.elements, u.indices)
    ensures var p := SwapPosition(w, s, u);
      && NotesHold(w, Marked(s, c.nullifierIn), Struck(b, p, u.ownerSk))
      && UnspentCollateral(Struck(b, p, u.ownerSk)) == UnspentCollateral(b) - u.inAmount
  {
    hide Ideal, TreeQueried, NotesOpen, NullifiersExact, UnspentCollateral, Spends, NullifierAt, Commitment;
    hide PoolTree.KnownRoots, LeafIndex, SpentPosition, MoneyConserved, MarketBalanced, FoldQueried;
    var n := TradedNote(w.h, u);
    CurrentRootKnown(w.h, s.leaves);
    SpendIsFresh(w, s, b, CurrentRoot(w.h, s), c.nullifierIn, n, u.ownerSk, u.elements, u.indices);
    SpendKeeps(w, s, b, SwapPosition(w, s, u), u.ownerSk, c.nullifierIn);
  }

  lemma MintTwoKeeps(w: World, s: State, b: Book, n: Note, m: Note)
    requires NotesHold(w, s, b) && Mintable(w, n) && Mintable(w, m) && n.asset != 0 && m.asset == 0
    ensures NotesHold(w, Minted(w.h, Minted(w.h, s, n), m), Entered(Entered(b, n), m))
    ensures UnspentCollateral(Entered(Entered(b, n), m)) == UnspentCollateral(b) + m.amount
  {
    hide NotesHold, Commitment, Mintable, UnspentCollateral;
    MintKeeps(w, s, b, n);
    MintKeeps(w, Minted(w.h, s, n), Entered(b, n), m);
  }

  /** Storage and book once the swap's spend and its two mints are entered one after the other. */
  ghost function SwapNotedState(w: World, s: State, c: Call, u: SwapPrivate): State
    requires c.SwapCall? && c.assetOut <= 1
  {
    Minted(w.h, Minted(w.h, Marked(s, c.nullifierIn), PositionNote(w.h, c.assetOut + 1, u)), ChangeNote(w.h, u))
  }

  ghost function SwapNotedBook(w: World, s: State, b: Book, c: Call, u: SwapPrivate): Book
    requires c.SwapCall? && c.assetOut <= 1
  {
    Entered(Entered(Struck(b, SwapPosition(w, s, u), u.ownerSk), PositionNote(w.h, c.assetOut + 1, u)),
            ChangeNote(w.h, u))
  }

  lemma SwapNoted(w: World, s: State, b: Book, e: Event)
    requires Ideal(w) && Inv(w, s, b) && Queried(w, e)
    requires e.call.SwapCall? && e.call.assetOut <= 1 && e.secrets.SwapSecrets?
    requires SwapFacts(w, s, e.call, e.secrets.swap) && e.call.nullifierIn !in s.nullifiers
    ensures NotesHold(w, SwapNotedState(w, s, e.call, e.secrets.swap), SwapNotedBook(w, s, b, e.call, e.secrets.swap))
    ensures UnspentCollateral(SwapNotedBook(w, s, b, e.call, e.secrets.swap))
         == UnspentCollateral(b) - e.secrets.swap.amountIn
  {
    hide Ideal, Inv, Queried, SwapFacts, NotesHold, UnspentCollateral, SpendQueried, TradedNote, PositionNote;
    hide ChangeNote;
    hide SwapPosition, Mintable, Commitment, Marked, Struck, Minted, Entered;
    var c, u := e.call, e.secrets.swap;
    SwapMints(w, s, e);
    SwapSpends(w, s, b, c, u);
    MintTwoKeeps(w, Marked(s, c.nullifierIn), Struck(b, SwapPosition(w, s, u), u.ownerSk),
                 PositionNote(w.h, c.assetOut + 1, u), ChangeNote(w.h, u));
  }

  lemma SwapNotes(w: World, s: State, b: Book, e: Event, s': State)
    requires Ideal(w) && Inv(w, s, b) && Queried(w, e)
    requires e.call.SwapCall? && e.call.assetOut <= 1 && e.secrets.SwapSecrets?
    requires Apply(w, s, e) == Ok(s') && SwapFacts(w, s, e.call, e.secrets.swap)
    ensures NotesHold(w, s', Record(w, s, b, e))
    ensures UnspentCollateral(Record(w, s, b, e)) == UnspentCollateral(b) - e.secrets.swap.amountIn
  {
    hide Ideal, Inv, Queried, SwapFacts, NotesHold, UnspentCollateral, Record, Apply, SwapNotedState, SwapNotedBook;
    hide Commitment, Mintable, PositionNote, ChangeNote, TradedNote, SpendQueried, SwapPosition;
    var c, u := e.call, e.secrets.swap;
    SwapMints(w, s, e);
    SwapStores(w, s, e, s');
    SwapRecord(w, s, b, e);
    SwapNoted(w, s, b, e);
    SwapAssembled(w, s, b, c, u);
    NotesHoldFrame(w, SwapNotedState(w, s, c, u), s', SwapNotedBook(w, s, b, c, u), Record(w, s, b, e));
  }

  lemma SwapRecord(w: World, s: State, b: Book, e: Event)
    requires e.call.SwapCall? && e.call.assetOut <= 1 && e.secrets.SwapSecrets?
    ensures var u, r := e.secrets.swap, Record(w, s, b, e);
      && r.notes == b.notes + [PositionNote(w.h, e.call.assetOut + 1, u), ChangeNote(w.h, u)]
      && r.spent == b.spent[SwapPosition(w, s, u) := u.ownerSk] && r.spends == b.spends + 1
  {
  }

  lemma SwapMints(w: World, s: State, e: Event)
    requires Queried(w, e) && e.call.SwapCall? && e.call.assetOut <= 1 && e.secrets.SwapSecrets?
    requires SwapFacts(w, s, e.call, e.secrets.swap)
    ensures var c, u := e.call, e.secrets.swap;
      var out, change := PositionNote(w.h, c.assetOut + 1, u), ChangeNote(w.h, u);
      && Mintable(w, out) && Mintable(w, change) && out.asset != 0 && change.asset == 0
      && change.amount == u.inAmount - u.amountIn
      && c.outCommitment == Commitment(w.h, out) && c.changeCommitment == Commitment(w.h, change)
      && SpendQueried(w, TradedNote(w.h, u), u.ownerSk, u.elements, u.indices)
  {
    hide Spends, SpendQueried, CurrentRoot;
  }

  lemma SwapAssembled(w: World, s: State, b: Book, c: Call, u: SwapPrivate)
    requires c.SwapCall? && c.assetOut <= 1
    requires c.outCommitment == Commitment(w.h, PositionNote(w.h, c.assetOut + 1, u))
    requires c.changeCommitment == Commitment(w.h, ChangeNote(w.h, u))
    ensures var s', b' := SwapNotedState(w, s, c, u), SwapNotedBook(w, s, b, c, u);
      && s'.leaves == s.leaves + [c.outCommitment] + [c.changeCommitment]
      && s'.nullifiers == s.nullifiers + {c.nullifierIn}
      && b'.notes == b.notes + [PositionNote(w.h, c.assetOut + 1, u), ChangeNote(w.h, u)]
      && b'.spent == b.spent[SwapPosition(w, s, u) := u.ownerSk] && b'.spends == b.spends + 1
  {
    hide Commitment, SwapPosition, PositionNote, ChangeNote;
  }

  lemma SwapKeeps(w: World, s: State, b: Book, e: Event, s': State)
    requires NoZeroDivisors() && Ideal(w) && Inv(w, s, b) && Succeeds(w, s, e, s') && e.call.SwapCall?
    ensures Inv(w, s', Record(w, s, b, e))
  {
    hide NotesOpen, SpendsOwned, NullifiersExact, TreeQueried, UnspentCollateral, Ideal, SwapFacts, MoneyConserved;
    hide Record, Queried, Sound;
    SwapStores(w, s, e, s');
    SwapAccepted(w, s, e, s');
    SwapNotes(w, s, b, e, s');
    SwapTotals(w, s, b, e, s');
  }

  /** The calls that touch no note. */
  lemma OtherKeeps(w: World, s: State, b: Book, e: Event, s': State)
    requires Inv(w, s, b) && Succeeds(w, s, e, s')
    requires !e.call.ShieldCall? && !e.call.UnshieldCall? && !e.call.SwapCall?
    ensures Inv(w, s', Record(w, s, b, e))
  {
    hide NotesOpen, SpendsOwned, NullifiersExact, TreeQueried, UnspentCollateral, Sound, Queried;
    NotesHoldFrame(w, s, s', b, Record(w, s, b, e));
    match e.call
    case WithdrawFees(to) =>
      if s.fees > 0 {
        PaymentMoves(s.balances, w.self, to, s.fees, w.self);
      }
    case OutsideTransfer(payer, payee, sum) => PaymentMoves(s.balances, payer, payee, sum, w.self);
    case _ =>
  }

  /** Every successful call keeps the invariant. */
  lemma StepKeeps(w: World, s: State, b: Book, e: Event, s': State)
    requires NoZeroDivisors() && Ideal(w) && Inv(w, s, b) && Succeeds(w, s, e, s')
    ensures Inv(w, s', Record(w, s, b, e))
  {
    hide Inv, Ideal, Succeeds, Record;
    match e.call
    case ShieldCall(_, _, _, _) => ShieldKeeps(w, s, b, e, s');
    case UnshieldCall(_, _, _, _, _, _) => UnshieldKeeps(w, s, b, e, s');
    case SwapCall(_, _, _, _, _, _, _, _, _) => SwapKeeps(w, s, b, e, s');
    case _ => OtherKeeps(w, s, b, e, s');
  }

  // ---- Runs ----

  datatype Configuration = Configuration(s: State, b: Book)

  /** Where a run starts: no contract yet, and whatever the token ledger says. */
  function Start(self: Address, balances: map<Address, nat>): Configuration {
    Configuration(State(None, [], {}, 0, 0, 0, {}, balances),
                  Book([], map[], 0, 0, 0, Balance(balances, self), Market(0, 0, 0, 0, 0, 0, 0)))
  }

  /** A call that aborts changes nothing. */
  ghost function Next(w: World, c: Configuration, e: Event): Configuration {
    match Apply(w, c.s, e)
    case Ok(s') => Configuration(s', Record(w, c.s, c.b, e))
    case Err(_) => c
  }

  ghost function Run(w: World, c: Configuration, events: seq<Event>): Configuration {
    if events == [] then c
    else
      var n := |events| - 1;
      Next(w, Run(w, c, events[..n]), events[n])
  }

  ghost predicate LegalRun(w: World, c: Configuration, events: seq<Event>) {
    events != [] ==>
      var n := |events| - 1;
      LegalRun(w, c, events[..n]) && Legal(w, Run(w, c, events[..n]).s, events[n])
  }

  ghost predicate Reachable(w: World, c: Configuration) {
    exists balances, events ::
      LegalRun(w, Start(w.self, balances), events) && Run(w, Start(w.self, balances), events) == c
  }

  lemma StartHolds(w: World, balances: map<Address, nat>)
    requires TreeQueried(w, [])
    ensures var c := Start(w.self, balances); Inv(w, c.s, c.b)
  {
    hide TreeQueried, Slot;
    var c := Start(w.self, balances);
    assert NullifierMap(w.h, c.b) == map[];
  }

  lemma {:induction false} RunKeeps(w: World, c: Configuration, events: seq<Event>)
    requires NoZeroDivisors() && Ideal(w) && Inv(w, c.s, c.b) && LegalRun(w, c, events)
    ensures var d := Run(w, c, events); Inv(w, d.s, d.b)
  {
    if events != [] {
      hide Inv, Ideal, Record, Legal, Apply;
      var n := |events| - 1;
      RunKeeps(w, c, events[..n]);
      var d := Run(w, c, events[..n]);
      if Apply(w, d.s, events[n]).Ok? {
        StepKeeps(w, d.s, d.b, events[n], Apply(w, d.s, events[n]).value);
      }
    }
  }

  /** The invariant holds in every reachable configuration. */
  lemma ReachableHolds(w: World, c: Configuration)
    requires NoZeroDivisors() && Ideal(w) && TreeQueried(w, []) && Reachable(w, c)
    ensures Inv(w, c.s, c.b)
  {
    hide Inv, Ideal, TreeQueried, LegalRun, Run, Start;
    var balances, events :|
      LegalRun(w, Start(w.self, balances), events) && Run(w, Start(w.self, balances), events) == c;
    StartHolds(w, balances);
    RunKeeps(w, Start(w.self, balances), events);
  }
}
