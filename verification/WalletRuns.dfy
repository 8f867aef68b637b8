/** The wallet against the chain over runs of commands: a sole inserter's files stay an exact image of
    the pool, so its local balances are the pool's. */
module WalletRuns {
  import opened ScalarField
  import opened Merkle
  import opened Outcomes
  import opened Circuits
  import opened Ledger
  import opened Bookkeeping
  import opened PoolSafety
  import opened PoolTheorems
  import opened Store
  import opened Wallet
  import PoolTree

  /** swap and unshield first sync; here that is a SyncCmd of its own before them. */
  datatype Command =
    | ShieldCmd(from: Address, amount: int, rho: Fe)
    | SwapCmd(buyYes: bool, amountIn: int, rhoOut: Fe, rhoChange: Fe)
    | UnshieldCmd(recipient: Address, field: Fe)
    | SyncCmd(events: seq<LeafEvent>, merged: seq<Fe>)

  datatype System = System(c: Configuration, wal: WalletState)

  // ---- What a command submits ----

  function ShieldEvent(h: Hashes, wal: WalletState, cmd: Command): Event
    requires cmd.ShieldCmd? && 0 <= cmd.amount < BOUND
  {
    var pk := OwnerPk(h, wal.ownerSk);
    Event(ShieldCall(cmd.from, cmd.amount, NoteCommitment(h, 0, cmd.amount, pk, cmd.rho), 0), {cmd.from}, true,
          ShieldSecrets(pk, cmd.rho))
  }

  /** The swap of the first unspent collateral note; None where the command throws. */
  ghost function SwapEvent(h: Hashes, s: State, wal: WalletState, cmd: Command): Option<Event>
    requires cmd.SwapCmd?
  {
    var i := FirstUnspent(wal.notes, 0);
    if i.None? || |wal.leaves| > Pow2(DEPTH) || wal.notes[i.value].leafIndex >= |wal.leaves| then None
    else
      var n := wal.notes[i.value];
      var p := PlanSwap(cmd.buyYes, cmd.amountIn, n.amount, s.yes, s.no);
      if p.None? || !FitsCircuit(p.value) then None
      else
        var u := SwapWitness(h, wal, n, p.value, cmd.amountIn, cmd.rhoOut, cmd.rhoChange);
        var claimed := ProverInputs(h, CurrentRoot(h, s), cmd.buyYes, p.value, u);
        var call := SubmittedSwap(h, cmd.buyYes, p.value, u);
        // Proving throws unless the witness meets the constraints; the proof is for the claimed inputs.
        if exists t :: Circuits.PrivateSwap(h, DEPTH, claimed, u, t) then
          Some(Event(call, {}, claimed == SwapInputs(h, s, call), SwapSecrets(u)))
        else None
  }

  /** The withdrawal of the first unspent collateral note, whole, at the current root and without fee. */
  ghost function UnshieldEvent(h: Hashes, s: State, wal: WalletState, cmd: Command): Option<Event>
    requires cmd.UnshieldCmd?
  {
    var i := FirstUnspent(wal.notes, 0);
    if i.None? || |wal.leaves| > Pow2(DEPTH) || wal.notes[i.value].leafIndex >= |wal.leaves|
       || wal.notes[i.value].amount >= BOUND then None
    else
      var n := wal.notes[i.value];
      var u := UnshieldWitness(h, wal, n);
      var call := SubmittedUnshield(h, CurrentRoot(h, s), n, u, cmd.recipient, cmd.field);
      if exists t :: Circuits.Unshield(h, DEPTH, UnshieldInputs(call), u, t) then
        Some(Event(call, {}, true, UnshieldSecrets(u)))
      else None
  }

  ghost function EventOf(h: Hashes, s: State, wal: WalletState, cmd: Command): Option<Event> {
    match cmd
    case ShieldCmd(_, amount, _) => if 0 <= amount < BOUND then Some(ShieldEvent(h, wal, cmd)) else None
    case SwapCmd(_, _, _, _) => SwapEvent(h, s, wal, cmd)
    case UnshieldCmd(_, _) => UnshieldEvent(h, s, wal, cmd)
    case SyncCmd(_, _) => None
  }

  // ---- What it writes down once the chain accepts ----

  function LocalShield(h: Hashes, wal: WalletState, cmd: Command): WalletState
    requires cmd.ShieldCmd? && 0 <= cmd.amount < BOUND
  {
    var pk := OwnerPk(h, wal.ownerSk);
    var commitment := NoteCommitment(h, 0, cmd.amount, pk, cmd.rho);
    wal.(leaves := wal.leaves + [commitment],
         notes := wal.notes + [WalletNote(0, cmd.amount, pk, cmd.rho, |wal.leaves|, commitment, false)])
  }

  /** The input struck out, the two leaves appended, the two notes added. */
  function LocalSwap(wal: WalletState, n: WalletNote, e: Event, cmd: Command, p: Plan): WalletState
    requires cmd.SwapCmd? && e.call.SwapCall? && cmd.amountIn <= n.amount && p.amountOut >= 0
  {
    var index := |wal.leaves|;
    wal.(leaves := wal.leaves + [e.call.outCommitment] + [e.call.changeCommitment],
         notes := AllStruck(wal.notes, n.commitment)
                  + [WalletNote(CircuitAsset(cmd.buyYes), p.amountOut, n.ownerPk, cmd.rhoOut, index,
                                e.call.outCommitment, false)]
                  + [WalletNote(0, n.amount - cmd.amountIn, n.ownerPk, cmd.rhoChange, index + 1,
                                e.call.changeCommitment, false)])
  }

  function LocalUnshield(wal: WalletState, n: WalletNote): WalletState {
    wal.(notes := AllStruck(wal.notes, n.commitment))
  }

  lemma PlanIsSane(buyYes: bool, amountIn: int, inAmount: int, yes: int, no: int)
    requires PlanSwap(buyYes, amountIn, inAmount, yes, no).Some?
    ensures amountIn <= inAmount && PlanSwap(buyYes, amountIn, inAmount, yes, no).value.amountOut > 0
  {
  }

  /** The wallet after a command whose event the chain accepted. */
  ghost function Local(h: Hashes, s: State, wal: WalletState, cmd: Command): WalletState
    requires EventOf(h, s, wal, cmd).Some?
  {
    match cmd
    case ShieldCmd(_, _, _) => LocalShield(h, wal, cmd)
    case SwapCmd(buyYes, amountIn, _, _) =>
      var n := wal.notes[FirstUnspent(wal.notes, 0).value];
      var p := PlanSwap(buyYes, amountIn, n.amount, s.yes, s.no).value;
      PlanIsSane(buyYes, amountIn, n.amount, s.yes, s.no);
      LocalSwap(wal, n, SwapEvent(h, s, wal, cmd).value, cmd, p)
    case UnshieldCmd(_, _) => LocalUnshield(wal, wal.notes[FirstUnspent(wal.notes, 0).value])
  }

  /** One command: a throw or an aborted call leaves everything as it was. */
  ghost function Execute(w: World, sys: System, cmd: Command): System {
    if cmd.SyncCmd? then sys.(wal := sys.wal.(leaves := cmd.merged, notes := AllPatched(sys.wal.notes, cmd.merged)))
    else
      var e := EventOf(w.h, sys.c.s, sys.wal, cmd);
      if e.None? || Apply(w, sys.c.s, e.value).Err? then sys
      else System(Next(w, sys.c, e.value), Local(w.h, sys.c.s, sys.wal, cmd))
  }

  // ---- Hypotheses on a command ----

  ghost predicate Unused(notes: seq<Note>, rho: Fe) {
    forall i :: 0 <= i < |notes| ==> notes[i].rho != rho
  }

  /** The randomness a command draws is not that of a note already in the tree. */
  ghost predicate FreshRho(notes: seq<Note>, cmd: Command) {
    && (cmd.ShieldCmd? ==> Unused(notes, cmd.rho))
    && (cmd.SwapCmd? ==> Unused(notes, cmd.rhoOut) && Unused(notes, cmd.rhoChange))
  }

  /** Sync events tell the truth; other commands use fresh randomness, do not sign for the pool, and hash
      within the queries. */
  ghost predicate Admissible(w: World, sys: System, cmd: Command) {
    if cmd.SyncCmd? then Truthful(sys.c.s.leaves, cmd.events) && IsMerge(sys.wal.leaves, cmd.events, cmd.merged)
    else
      var e := EventOf(w.h, sys.c.s, sys.wal, cmd);
      e.Some? ==>
        && w.self !in e.value.auth && Queried(w, e.value) && FreshRho(sys.c.b.notes, cmd)
        && (Apply(w, sys.c.s, e.value).Ok? ==> TreeQueried(w, Apply(w, sys.c.s, e.value).value.leaves))
  }

  // ---- Fresh randomness gives fresh leaves ----

  /** Without collisions, a note with unused randomness has a commitment no leaf has. */
  lemma FreshCommitment(w: World, s: State, b: Book, n: Note)
    requires Ideal(w) && Inv(w, s, b) && Opening(n) in w.q.q4 && Unused(b.notes, n.rho)
    ensures Commitment(w.h, n) !in s.leaves
  {
    hide TreeQueried, SpendsOwned, NullifiersExact, MoneyConserved, MarketBalanced;
    forall i | 0 <= i < |s.leaves|
      ensures s.leaves[i] != Commitment(w.h, n)
    {
      DifferentCommitments(w, b.notes[i], n);
    }
  }

  lemma DifferentCommitments(w: World, n: Note, m: Note)
    requires Ideal(w) && Opening(n) in w.q.q4 && Opening(m) in w.q.q4 && (n.rho != m.rho || n.asset != m.asset)
    ensures Commitment(w.h, n) != Commitment(w.h, m)
  {
  }

  // ---- Sync ----

  lemma {:induction false} IndexOfDistinct(leaves: seq<Fe>, i: nat)
    requires AllDistinct(leaves) && i < |leaves|
    ensures IndexOf(leaves, leaves[i]) == i
  {
    var k := IndexOf(leaves, leaves[i]);
    assert leaves[i] in leaves;
  }

  /** Syncing a mirror that is already the chain's leaves changes nothing. */
  lemma SyncChangesNothing(w: World, sys: System, cmd: Command)
    requires Mirrors(w, sys.c, sys.wal) && cmd.SyncCmd? && Admissible(w, sys, cmd)
    ensures Execute(w, sys, cmd) == sys
  {
    var leaves := sys.c.s.leaves;
    MergeIsPrefix(leaves, sys.wal.leaves, cmd.events, cmd.merged);
    assert cmd.merged == leaves;
    forall i | 0 <= i < |sys.wal.notes|
      ensures Patched(sys.wal.notes[i], leaves) == sys.wal.notes[i]
    {
      IndexOfDistinct(leaves, i);
    }
    assert AllPatched(sys.wal.notes, leaves) == sys.wal.notes;
  }

  // ---- The mirror across mints and spends ----

  lemma DistinctExtends(leaves: seq<Fe>, leaf: Fe)
    requires AllDistinct(leaves) && leaf !in leaves
    ensures AllDistinct(leaves + [leaf])
  {
  }

  /** Appending a note of the wallet's on both sides. */
  lemma MirrorMint(w: World, c: Configuration, wal: WalletState, n: Note)
    requires Mirrors(w, c, wal) && Commitment(w.h, n) !in c.s.leaves && n.ownerPk == OwnerPk(w.h, wal.ownerSk)
    requires |c.b.notes| !in c.b.spent
    ensures var leaf := Commitment(w.h, n);
      var entry := WalletNote(n.asset, n.amount, n.ownerPk, n.rho, |wal.leaves|, leaf, false);
      Mirrors(w, Configuration(Minted(w.h, c.s, n), Entered(c.b, n)),
              wal.(leaves := wal.leaves + [leaf], notes := wal.notes + [entry]))
  {
    hide Commitment, OwnerPk;
    DistinctExtends(c.s.leaves, Commitment(w.h, n));
  }

  /** Striking the one note of a commitment on one side, spending its position on the other. */
  lemma MirrorSpend(w: World, c: Configuration, wal: WalletState, p: nat, nullifier: Fe)
    requires Mirrors(w, c, wal) && p < |c.b.notes|
    ensures Mirrors(w, Configuration(Marked(c.s, nullifier), PoolSafety.Struck(c.b, p, wal.ownerSk)),
                    wal.(notes := AllStruck(wal.notes, c.s.leaves[p])))
  {
    hide OwnerPk;
    var c' := Configuration(Marked(c.s, nullifier), PoolSafety.Struck(c.b, p, wal.ownerSk));
    var notes' := AllStruck(wal.notes, c.s.leaves[p]);
    forall i | 0 <= i < |notes'|
      ensures notes'[i] == View(c', i)
    {
      assert wal.notes[i] == View(c, i);
      assert c.s.leaves[i] == c.s.leaves[p] <==> i == p;
    }
  }

  /** The mirror reads only leaves, notes and spent positions. */
  lemma MirrorFrame(w: World, c: Configuration, c': Configuration, wal: WalletState)
    requires Mirrors(w, c, wal)
    requires c'.s.leaves == c.s.leaves && c'.b.notes == c.b.notes && c'.b.spent == c.b.spent
    ensures Mirrors(w, c', wal)
  {
    forall i | 0 <= i < |wal.notes|
      ensures wal.notes[i] == View(c', i)
    {
      assert wal.notes[i] == View(c, i);
    }
  }

  // ---- One lemma per command ----

  /** Everything known before a command. */
  ghost predicate Good(w: World, sys: System) {
    Inv(w, sys.c.s, sys.c.b) && Mirrors(w, sys.c, sys.wal)
  }

  /** A command whose event exists and is accepted. */
  ghost predicate Accepted(w: World, sys: System, cmd: Command, e: Event, s': State) {
    && !cmd.SyncCmd? && Admissible(w, sys, cmd)
    && EventOf(w.h, sys.c.s, sys.wal, cmd) == Some(e) && Apply(w, sys.c.s, e) == Ok(s')
  }

  lemma SpentInRange(w: World, s: State, b: Book)
    requires Inv(w, s, b)
    ensures |b.notes| !in b.spent && |b.notes| + 1 !in b.spent
  {
    hide TreeQueried, NotesOpen, NullifiersExact, MoneyConserved, MarketBalanced;
  }

  lemma ShieldSound(w: World, sys: System, cmd: Command, e: Event, s': State)
    requires NoZeroDivisors() && Accepted(w, sys, cmd, e, s') && cmd.ShieldCmd?
    ensures Succeeds(w, sys.c.s, e, s') && e == ShieldEvent(w.h, sys.wal, cmd) && I128ToFr(cmd.amount) == cmd.amount
  {
    hide TreeQueried, OwnerPk, Apply;
    EncodesItself(cmd.amount);
    ShieldExact(w.h, cmd.amount, e.call.commitment, OwnerPk(w.h, sys.wal.ownerSk), cmd.rho);
  }

  lemma ShieldMirrors(w: World, sys: System, cmd: Command, e: Event, s': State)
    requires NoZeroDivisors() && Ideal(w) && Good(w, sys) && Accepted(w, sys, cmd, e, s') && cmd.ShieldCmd?
    ensures Mirrors(w, Next(w, sys.c, e), Local(w.h, sys.c.s, sys.wal, cmd))
  {
    hide Ideal, Inv, Mirrors, TreeQueried, OwnerPk, Legal;
    var c, wal := sys.c, sys.wal;
    ShieldSound(w, sys, cmd, e, s');
    SpentInRange(w, c.s, c.b);
    var n := ShieldNote(e.call, e.secrets);
    FreshCommitment(w, c.s, c.b, n);
    MirrorMint(w, c, wal, n);
    MirrorLengths(w, c, wal);
    MirrorFrame(w, Configuration(Minted(w.h, c.s, n), Entered(c.b, n)), Next(w, c, e), Local(w.h, c.s, wal, cmd));
  }

  lemma MirrorLengths(w: World, c: Configuration, wal: WalletState)
    requires Mirrors(w, c, wal)
    ensures wal.leaves == c.s.leaves && |wal.notes| == |c.b.notes| == |c.s.leaves|
  {
  }

  /** The position an honest spend consumes is the index of the note the wallet chose. */
  lemma PositionIsIndex(w: World, c: Configuration, wal: WalletState, i: nat, note: Note)
    requires Inv(w, c.s, c.b) && Mirrors(w, c, wal) && |c.s.leaves| <= Pow2(DEPTH) && i < |c.b.notes|
    requires note == c.b.notes[i]
    ensures SpentPosition(c.s.leaves, Commitment(w.h, note), LeafIndex(BitsOf(i, DEPTH))) == i
    ensures c.s.leaves[i] == Commitment(w.h, note)
  {
    hide Inv, Commitment, Ancestor, LeafIndex, Pow2, Slot;
    NoteInRange(w, c, i);
    PathIndex(i, BitsOf(i, DEPTH));
    AncestorBelowCapacity(i, DEPTH);
    SlotWithinCapacity(i);
    var slot := LeafIndex(BitsOf(i, DEPTH));
    assert Holds(c.s.leaves, i, c.s.leaves[i], slot);
    var p := SpentPosition(c.s.leaves, c.s.leaves[i], slot);
    assert Holds(c.s.leaves, p, c.s.leaves[i], slot);
  }

  /** The note a spending command picks, and the chain's note behind it. */
  lemma PickedNote(w: World, sys: System) returns (i: nat)
    requires Good(w, sys) && FirstUnspent(sys.wal.notes, 0).Some?
    ensures FirstUnspent(sys.wal.notes, 0) == Some(i) && i < |sys.c.b.notes| == |sys.wal.notes| == |sys.c.s.leaves|
    ensures sys.wal.notes[i] == View(sys.c, i) && i !in sys.c.b.spent && sys.c.b.notes[i].asset == 0
    ensures sys.c.b.notes[i].amount < BOUND && sys.c.b.notes[i].ownerPk == OwnerPk(w.h, sys.wal.ownerSk)
    ensures sys.c.s.leaves[i] == Commitment(w.h, sys.c.b.notes[i])
  {
    hide Inv, OwnerPk, Commitment;
    i := FirstUnspent(sys.wal.notes, 0).value;
    assert sys.wal.notes[i] == View(sys.c, i);
    NoteInRange(w, sys.c, i);
  }

  lemma UnshieldSound(w: World, sys: System, cmd: Command, e: Event, s': State)
    requires Accepted(w, sys, cmd, e, s') && cmd.UnshieldCmd?
    ensures Succeeds(w, sys.c.s, e, s')
  {
    hide TreeQueried, Apply, Circuits.Unshield, LeafIndex, CurrentRoot, PathElements, BitsOf, Queried;
  }

  lemma SpenderPicked(w: World, sys: System, cmd: Command, e: Event, s': State)
    requires Good(w, sys) && Accepted(w, sys, cmd, e, s') && (cmd.UnshieldCmd? || cmd.SwapCmd?)
    ensures FirstUnspent(sys.wal.notes, 0).Some? && |sys.c.s.leaves| <= Pow2(DEPTH)
  {
    hide Inv, Admissible, Apply, Circuits.Unshield, Circuits.PrivateSwap, LeafIndex, CurrentRoot, PathElements;
    hide BitsOf, Pow2, Nullifier;
    hide UnshieldWitness, SwapWitness, ProverInputs, SubmittedSwap, PlanSwap, SwapInputs;
  }

  /** What the unshield command submits and writes for the note it picked. */
  lemma UnshieldShape(w: World, sys: System, cmd: Command, e: Event, s': State, i: nat)
    requires Accepted(w, sys, cmd, e, s') && cmd.UnshieldCmd?
    requires FirstUnspent(sys.wal.notes, 0) == Some(i) && i < |sys.wal.notes|
    ensures e.call.UnshieldCall? && e.call.withdrawAmount == sys.wal.notes[i].amount < BOUND
    ensures e.secrets == UnshieldSecrets(UnshieldWitness(w.h, sys.wal, sys.wal.notes[i]))
    ensures |sys.wal.leaves| <= Pow2(DEPTH)
    ensures Local(w.h, sys.c.s, sys.wal, cmd) == LocalUnshield(sys.wal, sys.wal.notes[i])
  {
    hide Admissible, Apply, Circuits.Unshield, LeafIndex, CurrentRoot, PathElements, BitsOf, Pow2, Nullifier;
    hide UnshieldWitness, LocalUnshield;
  }

  lemma UnshieldLeaves(w: World, s: State, e: Event, s': State)
    requires e.call.UnshieldCall? && Apply(w, s, e) == Ok(s')
    ensures s'.leaves == s.leaves
  {
    hide PoolTree.KnownRoots;
  }

  lemma UnshieldRecord(w: World, s: State, b: Book, e: Event)
    requires e.call.UnshieldCall? && e.secrets.UnshieldSecrets?
    ensures var u, r := e.secrets.unshield, Record(w, s, b, e);
      var p := SpentPosition(s.leaves, Commitment(w.h, WithdrawnNote(w.h, e.call, u)), LeafIndex(u.indices));
      r.notes == b.notes && r.spent == b.spent[p := u.ownerSk]
  {
    hide SpentPosition, LeafIndex, Commitment, WithdrawnNote;
  }

  lemma WithdrawnIsPicked(w: World, sys: System, c: Call, i: nat)
    requires i < |sys.c.b.notes| == |sys.wal.notes| == |sys.c.s.leaves| && sys.wal.notes[i] == View(sys.c, i)
    requires sys.c.b.notes[i].asset == 0 && sys.c.b.notes[i].ownerPk == OwnerPk(w.h, sys.wal.ownerSk)
    requires c.UnshieldCall? && c.withdrawAmount == sys.wal.notes[i].amount
    ensures WithdrawnNote(w.h, c, UnshieldWitness(w.h, sys.wal, sys.wal.notes[i])) == sys.c.b.notes[i]
    ensures UnshieldWitness(w.h, sys.wal, sys.wal.notes[i]).indices == BitsOf(i, DEPTH)
    ensures UnshieldWitness(w.h, sys.wal, sys.wal.notes[i]).ownerSk == sys.wal.ownerSk
    ensures sys.wal.notes[i].commitment == sys.c.s.leaves[i]
  {
    hide OwnerPk, PathElements, BitsOf;
    EncodesItself(c.withdrawAmount);
  }

  lemma UnshieldMirrors(w: World, sys: System, cmd: Command, e: Event, s': State)
    requires Good(w, sys) && Accepted(w, sys, cmd, e, s') && cmd.UnshieldCmd?
    ensures Mirrors(w, Next(w, sys.c, e), Local(w.h, sys.c.s, sys.wal, cmd))
  {
    hide *;
    var c, wal := sys.c, sys.wal;
    SpenderPicked(w, sys, cmd, e, s');
    var i := PickedNote(w, sys);
    UnshieldShape(w, sys, cmd, e, s', i);
    AcceptedNext(w, sys, cmd, e, s');
    WithdrawnIsPicked(w, sys, e.call, i);
    PositionIsIndex(w, c, wal, i, c.b.notes[i]);
    UnshieldLeaves(w, c.s, e, s');
    UnshieldRecord(w, c.s, c.b, e);
    UnshieldAssembled(w, c, wal, i, e.call.nullifier, Configuration(s', Record(w, c.s, c.b, e)));
  }

  lemma UnshieldAssembled(w: World, c: Configuration, wal: WalletState, i: nat, nullifier: Fe, c': Configuration)
    requires Mirrors(w, c, wal) && i < |wal.notes| == |c.s.leaves| == |c.b.notes|
    requires wal.notes[i].commitment == c.s.leaves[i]
    requires c'.s.leaves == c.s.leaves && c'.b.notes == c.b.notes && c'.b.spent == c.b.spent[i := wal.ownerSk]
    ensures Mirrors(w, c', LocalUnshield(wal, wal.notes[i]))
  {
    hide Mirrors;
    MirrorSpend(w, c, wal, i, nullifier);
    MirrorFrame(w, Configuration(Marked(c.s, nullifier), PoolSafety.Struck(c.b, i, wal.ownerSk)), c',
                LocalUnshield(wal, wal.notes[i]));
  }

  lemma AcceptedNext(w: World, sys: System, cmd: Command, e: Event, s': State)
    requires Good(w, sys) && Accepted(w, sys, cmd, e, s')
    ensures Next(w, sys.c, e) == Configuration(s', Record(w, sys.c.s, sys.c.b, e)) && Apply(w, sys.c.s, e) == Ok(s')
    ensures Inv(w, sys.c.s, sys.c.b) && Mirrors(w, sys.c, sys.wal)
    ensures w.self !in e.auth && Queried(w, e) && FreshRho(sys.c.b.notes, cmd) && TreeQueried(w, s'.leaves)
  {
    hide Inv, Mirrors, Apply, Record, Queried, TreeQueried, EventOf, FreshRho;
  }

  // ---- The swap command ----

  /** What the swap command submits and writes for the note it picked. */
  lemma SwapCmdShape(w: World, sys: System, cmd: Command, e: Event, s': State, i: nat) returns (p: Plan)
    requires Accepted(w, sys, cmd, e, s') && cmd.SwapCmd?
    requires FirstUnspent(sys.wal.notes, 0) == Some(i) && i < |sys.wal.notes|
    ensures PlanSwap(cmd.buyYes, cmd.amountIn, sys.wal.notes[i].amount, sys.c.s.yes, sys.c.s.no) == Some(p)
    ensures FitsCircuit(p)
    ensures cmd.amountIn <= sys.wal.notes[i].amount && p.amountOut >= 0
    ensures var u := SwapWitness(w.h, sys.wal, sys.wal.notes[i], p, cmd.amountIn, cmd.rhoOut, cmd.rhoChange);
      && e.call == SubmittedSwap(w.h, cmd.buyYes, p, u) && e.call.SwapCall? && e.secrets == SwapSecrets(u)
      && Local(w.h, sys.c.s, sys.wal, cmd) == LocalSwap(sys.wal, sys.wal.notes[i], e, cmd, p)
      && (exists t ::
            Circuits.PrivateSwap(w.h, DEPTH, ProverInputs(w.h, CurrentRoot(w.h, sys.c.s), cmd.buyYes, p, u), u, t))
  {
    hide Admissible, Apply, Circuits.PrivateSwap, CurrentRoot, SwapWitness, LocalSwap, ProverInputs, SwapInputs;
    hide PlanSwap, Pow2, FitsCircuit;
    hide SwapNullifier, Commitment;
    p := PlanSwap(cmd.buyYes, cmd.amountIn, sys.wal.notes[i].amount, sys.c.s.yes, sys.c.s.no).value;
    PlanIsSane(cmd.buyYes, cmd.amountIn, sys.wal.notes[i].amount, sys.c.s.yes, sys.c.s.no);
  }

  /** The proof is for the inputs the contract rebuilds, so its answer is sound. */
  lemma SwapCmdSound(w: World, s: State, buyYes: bool, e: Event, p: Plan, u: SwapPrivate)
    requires FitsCircuit(p) && e.call == SubmittedSwap(w.h, buyYes, p, u) && e.secrets == SwapSecrets(u)
    requires exists t :: Circuits.PrivateSwap(w.h, DEPTH, ProverInputs(w.h, CurrentRoot(w.h, s), buyYes, p, u), u, t)
    ensures Sound(w, s, e)
  {
    hide *;
    InputsAgree(w.h, s, buyYes, p, u);
    SubmittedAsset(w.h, buyYes, p, u);
    SwapSoundEvent(w, s, e, u);
  }

  lemma SubmittedAsset(h: Hashes, buyYes: bool, p: Plan, u: SwapPrivate)
    requires FitsCircuit(p)
    ensures var c := SubmittedSwap(h, buyYes, p, u);
      c.SwapCall? && c.assetOut <= 1 && c.assetOut + 1 == CircuitAsset(buyYes)
  {
    hide SwapNullifier, Commitment;
  }

  lemma SwapSoundEvent(w: World, s: State, e: Event, u: SwapPrivate)
    requires e.call.SwapCall? && e.call.assetOut <= 1 && e.secrets == SwapSecrets(u)
    requires exists t :: Circuits.PrivateSwap(w.h, DEPTH, SwapInputs(w.h, s, e.call), u, t)
    ensures Sound(w, s, e)
  {
    hide Circuits.PrivateSwap, SwapInputs;
  }

  lemma LegalFrom(w: World, s: State, e: Event, s': State)
    requires w.self !in e.auth && Sound(w, s, e) && Queried(w, e) && Apply(w, s, e) == Ok(s')
    requires TreeQueried(w, s'.leaves)
    ensures Succeeds(w, s, e, s')
  {
    hide Sound, Queried, Apply, TreeQueried;
  }

  /** The circuit's field values are the command's integers: a negative amount has no proof. */
  lemma SwapNumbers(cmd: Command, inAmount: int, yes: int, no: int, p: Plan, amountIn: int, amountOut: int)
    requires cmd.SwapCmd? && PlanSwap(cmd.buyYes, cmd.amountIn, inAmount, yes, no) == Some(p) && FitsCircuit(p)
    requires amountIn == Reduce(cmd.amountIn) < BOUND && amountOut == Reduce(p.amountOut)
    ensures amountIn == cmd.amountIn && amountOut == p.amountOut
  {
    hide PlanSwap;
    assert cmd.amountIn == p.reserveInAfter - p.reserveInBefore;
    SmallAmount(cmd.amountIn);
    SmallResidue(p.amountOut);
  }

  lemma SmallAmount(x: int)
    requires -BOUND < x < BOUND && Reduce(x) < BOUND
    ensures Reduce(x) == x
  {
    if x < 0 {
      NegativeResidue(x);
    }
  }

  lemma NegativeResidue(x: int)
    requires -BOUND < x < 0
    ensures Reduce(x) == x + R
  {
  }

  /** A note of the wallet's own with these fields. */
  predicate EntryFields(h: Hashes, wal: WalletState, n: Note, asset: Fe, amount: int, rho: Fe) {
    n.asset == asset && n.amount == amount && n.ownerPk == OwnerPk(h, wal.ownerSk) && n.rho == rho
  }

  /** Both new wallet entries describe the notes the chain minted. */
  lemma SwapCmdNotes(w: World, sys: System, cmd: Command, e: Event, i: nat, p: Plan, u: SwapPrivate)
    requires cmd.SwapCmd? && i < |sys.c.b.notes| == |sys.wal.notes| == |sys.c.s.leaves|
    requires sys.wal.notes[i] == View(sys.c, i)
    requires sys.c.b.notes[i].asset == 0 && sys.c.b.notes[i].ownerPk == OwnerPk(w.h, sys.wal.ownerSk)
    requires sys.c.b.notes[i].amount < BOUND
    requires PlanSwap(cmd.buyYes, cmd.amountIn, sys.wal.notes[i].amount, sys.c.s.yes, sys.c.s.no) == Some(p)
    requires FitsCircuit(p)
    requires u == SwapWitness(w.h, sys.wal, sys.wal.notes[i], p, cmd.amountIn, cmd.rhoOut, cmd.rhoChange)
    requires e.call.SwapCall? && e.call.assetOut <= 1 && e.call.assetOut + 1 == CircuitAsset(cmd.buyYes)
    requires SwapFacts(w, sys.c.s, e.call, u)
    ensures 0 <= sys.wal.notes[i].amount - cmd.amountIn < BOUND && 0 <= p.amountOut < BOUND
    ensures TradedNote(w.h, u) == sys.c.b.notes[i] && u.indices == BitsOf(i, DEPTH) && u.ownerSk == sys.wal.ownerSk
    ensures sys.wal.notes[i].commitment == sys.c.s.leaves[i]
    ensures sys.wal.notes[i].ownerPk == OwnerPk(w.h, sys.wal.ownerSk)
    ensures EntryFields(w.h, sys.wal, PositionNote(w.h, e.call.assetOut + 1, u), CircuitAsset(cmd.buyYes), p.amountOut,
                        cmd.rhoOut)
    ensures EntryFields(w.h, sys.wal, ChangeNote(w.h, u), 0, sys.wal.notes[i].amount - cmd.amountIn, cmd.rhoChange)
  {
    hide OwnerPk, PathElements, BitsOf, Spends, CurrentRoot, PlanSwap, FitsCircuit, Commitment, Reduce, Sub;
    SmallResidue(sys.wal.notes[i].amount);
    SwapNumbers(cmd, sys.wal.notes[i].amount, sys.c.s.yes, sys.c.s.no, p, u.amountIn, u.amountOut);
  }

  lemma SwapMirrors(w: World, sys: System, cmd: Command, e: Event, s': State)
    requires NoZeroDivisors() && Ideal(w) && Good(w, sys) && Accepted(w, sys, cmd, e, s') && cmd.SwapCmd?
    ensures Mirrors(w, Next(w, sys.c, e), Local(w.h, sys.c.s, sys.wal, cmd)) && Succeeds(w, sys.c.s, e, s')
  {
    hide *;
    var c, wal := sys.c, sys.wal;
    SpenderPicked(w, sys, cmd, e, s');
    var i := PickedNote(w, sys);
    var p := SwapCmdShape(w, sys, cmd, e, s', i);
    AcceptedNext(w, sys, cmd, e, s');
    var u := SwapWitness(w.h, wal, wal.notes[i], p, cmd.amountIn, cmd.rhoOut, cmd.rhoChange);
    SwapCmdSound(w, c.s, cmd.buyYes, e, p, u);
    LegalFrom(w, c.s, e, s');
    NoteInRange(w, c, i);
    SwapAccepted(w, c.s, e, s');
    SubmittedAsset(w.h, cmd.buyYes, p, u);
    SwapCmdNotes(w, sys, cmd, e, i, p, u);
    PositionIsIndex(w, c, wal, i, c.b.notes[i]);
    SwapStores(w, c.s, e, s');
    SwapRecord(w, c.s, c.b, e);
    SwapPositionIs(w, c.s, u, i);
    SpentInRange(w, c.s, c.b);
    CommitmentsOf(w, c.s, e.call, u);
    SwapMints(w, c.s, e);
    SwapFresh(w, sys, cmd, PositionNote(w.h, e.call.assetOut + 1, u), ChangeNote(w.h, u), p.amountOut,
              wal.notes[i].amount - cmd.amountIn);
    SwapCmdAssembled(w, c, wal, i, cmd, e, p, u, Configuration(s', Record(w, c.s, c.b, e)));
  }

  lemma SwapFresh(w: World, sys: System, cmd: Command, out: Note, change: Note, amount: int, rest: int)
    requires Ideal(w) && Inv(w, sys.c.s, sys.c.b) && cmd.SwapCmd? && FreshRho(sys.c.b.notes, cmd)
    requires Mintable(w, out) && Mintable(w, change) && out.asset != 0 && change.asset == 0
    requires EntryFields(w.h, sys.wal, out, CircuitAsset(cmd.buyYes), amount, cmd.rhoOut)
    requires EntryFields(w.h, sys.wal, change, 0, rest, cmd.rhoChange)
    ensures Commitment(w.h, out) !in sys.c.s.leaves && Commitment(w.h, change) !in sys.c.s.leaves
    ensures Commitment(w.h, out) != Commitment(w.h, change)
  {
    hide Ideal, Inv, Commitment, Unused, OwnerPk;
    FreshCommitment(w, sys.c.s, sys.c.b, out);
    FreshCommitment(w, sys.c.s, sys.c.b, change);
    DifferentCommitments(w, out, change);
  }

  lemma SwapPositionIs(w: World, s: State, u: SwapPrivate, i: nat)
    requires SpentPosition(s.leaves, Commitment(w.h, TradedNote(w.h, u)), LeafIndex(u.indices)) == i
    ensures SwapPosition(w, s, u) == i
  {
    hide SpentPosition, Commitment, TradedNote, LeafIndex;
  }

  lemma CommitmentsOf(w: World, s: State, c: Call, u: SwapPrivate)
    requires c.SwapCall? && c.assetOut <= 1 && SwapFacts(w, s, c, u)
    ensures c.outCommitment == Commitment(w.h, PositionNote(w.h, c.assetOut + 1, u))
    ensures c.changeCommitment == Commitment(w.h, ChangeNote(w.h, u))
  {
    hide Commitment, PositionNote, ChangeNote, Spends;
  }

  lemma SwapCmdAssembled(w: World, c: Configuration, wal: WalletState, i: nat, cmd: Command, e: Event, p: Plan,
                         u: SwapPrivate, c': Configuration)
    requires Mirrors(w, c, wal) && i < |wal.notes| == |c.s.leaves| == |c.b.notes|
    requires wal.notes[i].commitment == c.s.leaves[i]
    requires cmd.SwapCmd? && e.call.SwapCall? && e.call.assetOut <= 1
    requires 0 <= wal.notes[i].amount - cmd.amountIn < BOUND && 0 <= p.amountOut < BOUND
    requires wal.notes[i].ownerPk == OwnerPk(w.h, wal.ownerSk) && |c.b.notes| !in c.b.spent
    requires |c.b.notes| + 1 !in c.b.spent
    requires e.call.outCommitment !in c.s.leaves && e.call.changeCommitment !in c.s.leaves
    requires e.call.outCommitment != e.call.changeCommitment
    requires e.call.outCommitment == Commitment(w.h, PositionNote(w.h, e.call.assetOut + 1, u))
    requires e.call.changeCommitment == Commitment(w.h, ChangeNote(w.h, u))
    requires EntryFields(w.h, wal, PositionNote(w.h, e.call.assetOut + 1, u), CircuitAsset(cmd.buyYes), p.amountOut,
                         cmd.rhoOut)
    requires EntryFields(w.h, wal, ChangeNote(w.h, u), 0, wal.notes[i].amount - cmd.amountIn, cmd.rhoChange)
    requires c'.s.leaves == c.s.leaves + [e.call.outCommitment] + [e.call.changeCommitment]
    requires c'.b.notes == c.b.notes + [PositionNote(w.h, e.call.assetOut + 1, u), ChangeNote(w.h, u)]
    requires c'.b.spent == c.b.spent[i := wal.ownerSk]
    ensures Mirrors(w, c', LocalSwap(wal, wal.notes[i], e, cmd, p))
  {
    hide Mirrors, OwnerPk, Commitment, PositionNote, ChangeNote;
    var out, change := PositionNote(w.h, e.call.assetOut + 1, u), ChangeNote(w.h, u);
    MirrorLengths(w, c, wal);
    MirrorSpend(w, c, wal, i, e.call.nullifierIn);
    var c1 := Configuration(Marked(c.s, e.call.nullifierIn), PoolSafety.Struck(c.b, i, wal.ownerSk));
    var wal1 := wal.(notes := AllStruck(wal.notes, c.s.leaves[i]));
    MirrorMint(w, c1, wal1, out);
    var c2 := Configuration(Minted(w.h, c1.s, out), Entered(c1.b, out));
    var entry := WalletNote(out.asset, out.amount, out.ownerPk, out.rho, |wal1.leaves|, e.call.outCommitment, false);
    var wal2 := wal1.(leaves := wal1.leaves + [e.call.outCommitment], notes := wal1.notes + [entry]);
    assert Mirrors(w, c2, wal2);
    MirrorMint(w, c2, wal2, change);
    MirrorFrame(w, Configuration(Minted(w.h, c2.s, change), Entered(c2.b, change)), c',
                LocalSwap(wal, wal.notes[i], e, cmd, p));
  }

  /** The unshield command's event is the owner's withdrawal of the run model, whenever that has a sound
      proof. */
  lemma UnshieldEventIs(w: World, c: Configuration, wal: WalletState, cmd: Command, i: nat)
    requires cmd.UnshieldCmd? && FirstUnspent(wal.notes, 0) == Some(i) && i < |wal.notes|
    requires Holding(w, c, wal, wal.notes[i]) && |c.s.leaves| <= Pow2(DEPTH) && wal.notes[i].amount < BOUND
    requires Sound(w, c.s, WithdrawalEvent(w.h, c.s, c.b, |c.s.leaves|, wal.notes[i].leafIndex, wal.ownerSk,
                                           cmd.recipient, cmd.field, 0))
    ensures EventOf(w.h, c.s, wal, cmd)
         == Some(WithdrawalEvent(w.h, c.s, c.b, |c.s.leaves|, wal.notes[i].leafIndex, wal.ownerSk,
                                 cmd.recipient, cmd.field, 0))
  {
    hide Pow2, Sound, CurrentRoot, UnshieldWitness, SubmittedUnshield, WithdrawalEvent, Circuits.Unshield;
    var n := wal.notes[i];
    HonestUnshieldIs(w, c, wal, n, cmd.recipient, cmd.field);
    var e := WithdrawalEvent(w.h, c.s, c.b, |c.s.leaves|, n.leafIndex, wal.ownerSk, cmd.recipient, cmd.field, 0);
    SubmittedIsUnshield(w.h, CurrentRoot(w.h, c.s), n, UnshieldWitness(w.h, wal, n), cmd.recipient, cmd.field);
    WithdrawalSound(w, c.s, e);
  }

  lemma SubmittedIsUnshield(h: Hashes, root: Fe, n: WalletNote, u: UnshieldPrivate, recipient: Address, field: Fe)
    requires n.amount < BOUND
    ensures SubmittedUnshield(h, root, n, u, recipient, field).UnshieldCall?
  {
    hide LeafIndex;
  }

  // ---- Runs ----

  /** What happens next: a command of the wallet's, or a call by someone else that touches no note. */
  datatype Action = Mine(cmd: Command) | Others(e: Event)

  ghost function Act(w: World, sys: System, a: Action): System {
    match a
    case Mine(cmd) => Execute(w, sys, cmd)
    case Others(e) => sys.(c := Next(w, sys.c, e))
  }

  ghost predicate Fair(w: World, sys: System, a: Action) {
    match a
    case Mine(cmd) => Admissible(w, sys, cmd)
    case Others(e) => Legal(w, sys.c.s, e) && !e.call.ShieldCall? && !e.call.UnshieldCall? && !e.call.SwapCall?
  }

  ghost function RunOf(w: World, sys: System, actions: seq<Action>): System {
    if actions == [] then sys
    else
      var n := |actions| - 1;
      Act(w, RunOf(w, sys, actions[..n]), actions[n])
  }

  ghost predicate FairRun(w: World, sys: System, actions: seq<Action>) {
    actions != [] ==>
      var n := |actions| - 1;
      FairRun(w, sys, actions[..n]) && Fair(w, RunOf(w, sys, actions[..n]), actions[n])
  }

  /** A new wallet beside a pool that is not deployed yet. */
  function Fresh(w: World, ownerSk: Fe, balances: map<Address, nat>): System {
    System(Start(w.self, balances), WalletState(ownerSk, [], []))
  }

  lemma OthersKeepNotes(w: World, s: State, b: Book, e: Event, s': State)
    requires Inv(w, s, b) && Apply(w, s, e) == Ok(s')
    requires !e.call.ShieldCall? && !e.call.UnshieldCall? && !e.call.SwapCall?
    ensures var r := Record(w, s, b, e);
      s'.leaves == s.leaves && r.notes == b.notes && r.spent == b.spent && r.swapFees == b.swapFees
  {
    hide TreeQueried, NotesOpen, SpendsOwned, NullifiersExact, MoneyConserved, MarketBalanced;
  }

  lemma FeeFreeRecord(w: World, s: State, b: Book, e: Event)
    requires e.call.SwapCall? ==> e.call.swapFee == 0
    ensures Record(w, s, b, e).swapFees == b.swapFees
  {
    hide SpentPosition, LeafIndex, Commitment;
  }

  lemma AcceptedFeeFree(w: World, sys: System, cmd: Command, e: Event, s': State)
    requires Accepted(w, sys, cmd, e, s')
    ensures e.call.SwapCall? ==> e.call.swapFee == 0
  {
    hide Admissible, Apply, Circuits.PrivateSwap, Circuits.Unshield, CurrentRoot, SwapWitness, UnshieldWitness;
    hide ProverInputs, SwapInputs;
    hide PlanSwap, Pow2, FitsCircuit, SwapNullifier, Commitment, LeafIndex;
  }

  /** An accepted command keeps the invariant and the mirror. */
  lemma AcceptedKeeps(w: World, sys: System, cmd: Command, e: Event, s': State)
    requires NoZeroDivisors() && Ideal(w) && Good(w, sys) && Accepted(w, sys, cmd, e, s') && !cmd.SyncCmd?
    ensures Good(w, System(Next(w, sys.c, e), Local(w.h, sys.c.s, sys.wal, cmd)))
  {
    hide Ideal, Accepted, Inv, Mirrors, Record, Local, EventOf, Next, Succeeds;
    AcceptedNext(w, sys, cmd, e, s');
    if cmd.ShieldCmd? {
      ShieldSound(w, sys, cmd, e, s');
      ShieldMirrors(w, sys, cmd, e, s');
    } else if cmd.SwapCmd? {
      SwapMirrors(w, sys, cmd, e, s');
    } else {
      UnshieldSound(w, sys, cmd, e, s');
      UnshieldMirrors(w, sys, cmd, e, s');
    }
    StepKeeps(w, sys.c.s, sys.c.b, e, s');
  }

  lemma ActKeeps(w: World, sys: System, a: Action)
    requires NoZeroDivisors() && Ideal(w) && Good(w, sys) && Fair(w, sys, a)
    ensures Good(w, Act(w, sys, a)) && Act(w, sys, a).c.b.swapFees == sys.c.b.swapFees
    ensures Act(w, sys, a).wal.ownerSk == sys.wal.ownerSk
  {
    hide Ideal, Inv, Mirrors, Record, Legal, Admissible, EventOf, Apply, Local;
    var s, b := sys.c.s, sys.c.b;
    match a {
      case Mine(cmd) =>
        if cmd.SyncCmd? {
          SyncChangesNothing(w, sys, cmd);
        } else if EventOf(w.h, s, sys.wal, cmd).Some? {
          var e := EventOf(w.h, s, sys.wal, cmd).value;
          if Apply(w, s, e).Ok? {
            var s' := Apply(w, s, e).value;
            AcceptedKeeps(w, sys, cmd, e, s');
            AcceptedFeeFree(w, sys, cmd, e, s');
            FeeFreeRecord(w, s, b, e);
            LocalOwner(w, sys, cmd);
          }
        }
      case Others(e) =>
        if Apply(w, s, e).Ok? {
          var s' := Apply(w, s, e).value;
          OthersKeepNotes(w, s, b, e, s');
          StepKeeps(w, s, b, e, s');
          MirrorFrame(w, sys.c, Configuration(s', Record(w, s, b, e)), sys.wal);
        }
    }
  }

  lemma LocalOwner(w: World, sys: System, cmd: Command)
    requires EventOf(w.h, sys.c.s, sys.wal, cmd).Some?
    ensures Local(w.h, sys.c.s, sys.wal, cmd).ownerSk == sys.wal.ownerSk
  {
    hide EventOf, SwapEvent, PlanSwap;
  }

  lemma {:induction false} RunOfKeeps(w: World, sys: System, actions: seq<Action>)
    requires NoZeroDivisors() && Ideal(w) && Good(w, sys) && FairRun(w, sys, actions) && sys.c.b.swapFees == 0
    ensures Good(w, RunOf(w, sys, actions)) && RunOf(w, sys, actions).c.b.swapFees == 0
  {
    if actions != [] {
      hide Good, Ideal, Act, Fair;
      var n := |actions| - 1;
      RunOfKeeps(w, sys, actions[..n]);
      ActKeeps(w, RunOf(w, sys, actions[..n]), actions[n]);
    }
  }

  lemma FreshIsGood(w: World, ownerSk: Fe, balances: map<Address, nat>)
    requires TreeQueried(w, [])
    ensures Good(w, Fresh(w, ownerSk, balances))
  {
    hide Inv, TreeQueried;
    StartHolds(w, balances);
  }

  /** Mirrored notes have the chain's unspent total, asset by asset. */
  lemma {:induction false} TotalsAgree(local: seq<WalletNote>, notes: seq<Note>, spent: set<nat>, asset: Fe)
    requires |local| == |notes|
    requires forall i :: 0 <= i < |notes| ==>
      local[i].asset == notes[i].asset && local[i].amount == notes[i].amount && (local[i].spent <==> i in spent)
    ensures LocalTotal(local, asset) == Unspent(notes, spent, asset)
  {
    if notes != [] {
      TotalsAgree(local[..|notes| - 1], notes[..|notes| - 1], spent, asset);
    }
  }

  /** Over every run of shields, swaps, withdrawals and syncs by a sole inserter, interleaved with calls
      of others that touch no note: the mirror is the chain's leaves, every note sits at its leaf index,
      the balances the wallet shows are the chain's unspent totals, and the pool can pay the collateral
      balance with all its fees. */
  lemma WalletMirrorsPool(w: World, ownerSk: Fe, balances: map<Address, nat>, actions: seq<Action>)
    requires Assumed(w) && FairRun(w, Fresh(w, ownerSk, balances), actions)
    ensures var sys := RunOf(w, Fresh(w, ownerSk, balances), actions);
      && sys.wal.leaves == sys.c.s.leaves && |sys.wal.notes| == |sys.wal.leaves|
      && (forall i :: 0 <= i < |sys.wal.notes| ==>
            sys.wal.notes[i].leafIndex == i && sys.wal.leaves[i] == sys.wal.notes[i].commitment)
      && (forall asset: Fe :: LocalTotal(sys.wal.notes, asset) == Unspent(sys.c.b.notes, sys.c.b.spent.Keys, asset))
      && Balance(sys.c.s.balances, w.self) >= LocalTotal(sys.wal.notes, 0) + sys.c.s.fees
  {
    hide Ideal, TreeQueried, RunOf, FairRun, Inv;
    var sys := RunOf(w, Fresh(w, ownerSk, balances), actions);
    FreshIsGood(w, ownerSk, balances);
    RunOfKeeps(w, Fresh(w, ownerSk, balances), actions);
    forall asset: Fe
      ensures LocalTotal(sys.wal.notes, asset) == Unspent(sys.c.b.notes, sys.c.b.spent.Keys, asset)
    {
      forall i | 0 <= i < |sys.c.b.notes|
        ensures sys.wal.notes[i] == View(sys.c, i)
      {
      }
      TotalsAgree(sys.wal.notes, sys.c.b.notes, sys.c.b.spent.Keys, asset);
    }
    PayableIfNoSwapFees(w, sys.c);
  }

  lemma PayableIfNoSwapFees(w: World, c: Configuration)
    requires Inv(w, c.s, c.b) && c.b.swapFees == 0
    ensures Balance(c.s.balances, w.self) >= Unspent(c.b.notes, c.b.spent.Keys, 0) + c.s.fees
  {
    hide TreeQueried, NotesOpen, SpendsOwned, NullifiersExact, MarketBalanced, Unspent;
  }
}
