/** The wallet in a pool that others use too: its mirror stays a prefix of the chain's leaves exactly as long
    as it appends at the chain's end, and no sync repairs it afterwards. */
module SharedPool {
  import opened ScalarField
  import opened Merkle
  import opened Circuits
  import opened Ledger
  import opened Bookkeeping
  import opened PoolSafety
  import opened PoolTheorems
  import opened Store
  import opened Wallet
  import opened WalletRuns

  /** Others may make any call that can occur, deposits and swaps included. */
  ghost predicate SharedFair(w: World, sys: System, a: Action) {
    match a
    case Mine(cmd) => Admissible(w, sys, cmd)
    case Others(e) => Legal(w, sys.c.s, e)
  }

  ghost predicate SharedRun(w: World, sys: System, actions: seq<Action>) {
    actions != [] ==>
      var n := |actions| - 1;
      SharedRun(w, sys, actions[..n]) && SharedFair(w, RunOf(w, sys, actions[..n]), actions[n])
  }

  /** An accepted command that appends to the mirror does so when the mirror is the chain's leaves. */
  ghost predicate AtEnd(w: World, sys: System, a: Action) {
    a.Mine? && (a.cmd.ShieldCmd? || a.cmd.SwapCmd?) ==>
      var e := EventOf(w.h, sys.c.s, sys.wal, a.cmd);
      e.Some? && Apply(w, sys.c.s, e.value).Ok? ==> sys.wal.leaves == sys.c.s.leaves
  }

  ghost predicate AllAtEnd(w: World, sys: System, actions: seq<Action>) {
    actions != [] ==>
      var n := |actions| - 1;
      AllAtEnd(w, sys, actions[..n]) && AtEnd(w, RunOf(w, sys, actions[..n]), actions[n])
  }

  // ---- Appending ----

  lemma AppendPrefix(m: seq<Fe>, c: seq<Fe>, x: Fe)
    requires |m| <= |c| && x !in c
    ensures m + [x] <= c + [x] <==> m == c
  {
    if |m| < |c| {
      assert (m + [x])[|m|] == x && (c + [x])[|m|] == c[|m|];
    } else {
      assert m == (m + [x])[..|m|] && c == (c + [x])[..|m|];
    }
  }

  lemma AppendTwo(m: seq<Fe>, c: seq<Fe>, x: Fe, y: Fe)
    requires |m| <= |c| && x !in c
    ensures m + [x] + [y] <= c + [x] + [y] <==> m == c
  {
    if |m| < |c| {
      assert (m + [x] + [y])[|m|] == x && (c + [x] + [y])[|m|] == c[|m|];
    } else {
      assert m == (m + [x] + [y])[..|m|] && c == (c + [x] + [y])[..|m|];
    }
  }

  // ---- What an accepted command appends ----

  lemma AcceptedParts(w: World, sys: System, cmd: Command, e: Event, s': State)
    requires Accepted(w, sys, cmd, e, s')
    ensures Next(w, sys.c, e) == Configuration(s', Record(w, sys.c.s, sys.c.b, e)) && Apply(w, sys.c.s, e) == Ok(s')
    ensures w.self !in e.auth && Queried(w, e) && FreshRho(sys.c.b.notes, cmd) && TreeQueried(w, s'.leaves)
  {
    hide Apply, Record, Queried, TreeQueried, EventOf, FreshRho;
  }

  lemma ShieldAppends(w: World, sys: System, cmd: Command, e: Event, s': State)
    requires NoZeroDivisors() && Ideal(w) && Inv(w, sys.c.s, sys.c.b)
    requires Accepted(w, sys, cmd, e, s') && cmd.ShieldCmd?
    ensures Succeeds(w, sys.c.s, e, s') && e.call.ShieldCall? && e.call.commitment !in sys.c.s.leaves
    ensures s'.leaves == sys.c.s.leaves + [e.call.commitment]
    ensures Local(w.h, sys.c.s, sys.wal, cmd).leaves == sys.wal.leaves + [e.call.commitment]
  {
    hide Ideal, Inv, TreeQueried, OwnerPk, Legal;
    ShieldSound(w, sys, cmd, e, s');
    AcceptedParts(w, sys, cmd, e, s');
    FreshCommitment(w, sys.c.s, sys.c.b, ShieldNote(e.call, e.secrets));
  }

  lemma SwapPicks(w: World, sys: System, cmd: Command, e: Event, s': State)
    requires Accepted(w, sys, cmd, e, s') && cmd.SwapCmd?
    ensures FirstUnspent(sys.wal.notes, 0).Some?
  {
    hide Admissible, Apply, Circuits.PrivateSwap, CurrentRoot, SwapWitness, ProverInputs, SwapInputs, SubmittedSwap;
    hide PlanSwap, Pow2, FitsCircuit, FirstUnspent;
  }

  /** The two leaves of a submitted swap, and that its proof is for the inputs the contract rebuilds. */
  lemma SwapSubmits(w: World, sys: System, cmd: Command, e: Event, s': State) returns (u: SwapPrivate)
    requires Accepted(w, sys, cmd, e, s') && cmd.SwapCmd?
    ensures e.call.SwapCall? && e.call.assetOut <= 1 && e.secrets == SwapSecrets(u) && Sound(w, sys.c.s, e)
    ensures e.call.outCommitment == Commitment(w.h, PositionNote(w.h, e.call.assetOut + 1, u)) && u.rhoOut == cmd.rhoOut
    ensures Local(w.h, sys.c.s, sys.wal, cmd).leaves
         == sys.wal.leaves + [e.call.outCommitment] + [e.call.changeCommitment]
  {
    hide Accepted, Circuits.PrivateSwap, CurrentRoot, Local, ProverInputs, Sound, PlanSwap, FitsCircuit, AllStruck;
    hide Commitment, SwapNullifier, PathElements, BitsOf, Reduce, PositionNote, ChangeNote;
    SwapPicks(w, sys, cmd, e, s');
    var i := FirstUnspent(sys.wal.notes, 0).value;
    var p := SwapCmdShape(w, sys, cmd, e, s', i);
    u := SwapWitness(w.h, sys.wal, sys.wal.notes[i], p, cmd.amountIn, cmd.rhoOut, cmd.rhoChange);
    SubmittedAsset(w.h, cmd.buyYes, p, u);
    SwapCmdSound(w, sys.c.s, cmd.buyYes, e, p, u);
  }

  lemma SwapAppends(w: World, sys: System, cmd: Command, e: Event, s': State)
    requires NoZeroDivisors() && Ideal(w) && Inv(w, sys.c.s, sys.c.b)
    requires Accepted(w, sys, cmd, e, s') && cmd.SwapCmd?
    ensures Succeeds(w, sys.c.s, e, s') && e.call.SwapCall? && e.call.outCommitment !in sys.c.s.leaves
    ensures s'.leaves == sys.c.s.leaves + [e.call.outCommitment] + [e.call.changeCommitment]
    ensures Local(w.h, sys.c.s, sys.wal, cmd).leaves
         == sys.wal.leaves + [e.call.outCommitment] + [e.call.changeCommitment]
  {
    hide Ideal, Inv, TreeQueried, Legal, Accepted, Apply, Sound, Local, SpendQueried, Commitment, Unused;
    var u := SwapSubmits(w, sys, cmd, e, s');
    AcceptedParts(w, sys, cmd, e, s');
    LegalFrom(w, sys.c.s, e, s');
    SwapStores(w, sys.c.s, e, s');
    FreshCommitment(w, sys.c.s, sys.c.b, PositionNote(w.h, e.call.assetOut + 1, u));
  }

  lemma UnshieldAppendsNothing(w: World, sys: System, cmd: Command, e: Event, s': State)
    requires Accepted(w, sys, cmd, e, s') && cmd.UnshieldCmd?
    ensures Succeeds(w, sys.c.s, e, s') && s'.leaves == sys.c.s.leaves
    ensures Local(w.h, sys.c.s, sys.wal, cmd).leaves == sys.wal.leaves
  {
    hide Legal, Apply, Admissible, Circuits.Unshield, CurrentRoot, UnshieldWitness, FirstUnspent, Pow2, AllStruck;
    UnshieldSound(w, sys, cmd, e, s');
    UnshieldLeaves(w, sys.c.s, e, s');
  }

  // ---- One action ----

  ghost predicate IsPrefix(sys: System) { sys.wal.leaves <= sys.c.s.leaves }

  /** What holds all along: the pool's invariant, and a mirror no longer than the chain. */
  ghost predicate Tracked(w: World, sys: System) {
    Inv(w, sys.c.s, sys.c.b) && |sys.wal.leaves| <= |sys.c.s.leaves|
  }

  lemma AcceptedPrefix(w: World, sys: System, cmd: Command, e: Event, s': State)
    requires NoZeroDivisors() && Ideal(w) && Tracked(w, sys) && Accepted(w, sys, cmd, e, s')
    ensures var sys' := System(Next(w, sys.c, e), Local(w.h, sys.c.s, sys.wal, cmd));
      && Tracked(w, sys') && (IsPrefix(sys') <==> IsPrefix(sys) && AtEnd(w, sys, Mine(cmd)))
  {
    hide Ideal, Inv, Local, EventOf, Record, Succeeds, Apply, Admissible;
    AcceptedParts(w, sys, cmd, e, s');
    if cmd.ShieldCmd? {
      ShieldAppends(w, sys, cmd, e, s');
      AppendPrefix(sys.wal.leaves, sys.c.s.leaves, e.call.commitment);
    } else if cmd.SwapCmd? {
      SwapAppends(w, sys, cmd, e, s');
      AppendTwo(sys.wal.leaves, sys.c.s.leaves, e.call.outCommitment, e.call.changeCommitment);
    } else {
      UnshieldAppendsNothing(w, sys, cmd, e, s');
    }
    StepKeeps(w, sys.c.s, sys.c.b, e, s');
  }

  lemma SyncPrefix(w: World, sys: System, cmd: Command)
    requires Tracked(w, sys) && cmd.SyncCmd? && Admissible(w, sys, cmd)
    ensures Tracked(w, Execute(w, sys, cmd)) && (IsPrefix(Execute(w, sys, cmd)) <==> IsPrefix(sys))
  {
    hide Inv;
    MergePrefixIff(sys.c.s.leaves, sys.wal.leaves, cmd.events, cmd.merged);
    MergeWithin(sys.c.s.leaves, sys.wal.leaves, cmd.events, cmd.merged);
  }

  lemma OthersPrefix(w: World, sys: System, e: Event)
    requires NoZeroDivisors() && Ideal(w) && Tracked(w, sys) && Legal(w, sys.c.s, e)
    ensures var sys' := sys.(c := Next(w, sys.c, e)); Tracked(w, sys') && (IsPrefix(sys') <==> IsPrefix(sys))
  {
    hide Ideal, Inv, Record, Legal, Apply, Known;
    if Apply(w, sys.c.s, e).Ok? {
      var s' := Apply(w, sys.c.s, e).value;
      StepKeeps(w, sys.c.s, sys.c.b, e, s');
      StepExtends(w, sys.c.s, sys.c.b, e, s');
    }
  }

  lemma ActPrefix(w: World, sys: System, a: Action)
    requires NoZeroDivisors() && Ideal(w) && Tracked(w, sys) && SharedFair(w, sys, a)
    ensures Tracked(w, Act(w, sys, a)) && (IsPrefix(Act(w, sys, a)) <==> IsPrefix(sys) && AtEnd(w, sys, a))
  {
    hide Ideal, Tracked, IsPrefix, Legal, Admissible, EventOf, Apply, Local, Next;
    match a {
      case Mine(cmd) =>
        if cmd.SyncCmd? {
          SyncPrefix(w, sys, cmd);
        } else if EventOf(w.h, sys.c.s, sys.wal, cmd).Some? {
          var e := EventOf(w.h, sys.c.s, sys.wal, cmd).value;
          if Apply(w, sys.c.s, e).Ok? {
            AcceptedPrefix(w, sys, cmd, e, Apply(w, sys.c.s, e).value);
          }
        }
      case Others(e) => OthersPrefix(w, sys, e);
    }
  }

  // ---- Runs ----

  lemma {:induction false} RunPrefix(w: World, sys: System, actions: seq<Action>)
    requires NoZeroDivisors() && Ideal(w) && Tracked(w, sys) && IsPrefix(sys) && SharedRun(w, sys, actions)
    ensures Tracked(w, RunOf(w, sys, actions)) && (IsPrefix(RunOf(w, sys, actions)) <==> AllAtEnd(w, sys, actions))
  {
    hide Ideal, Tracked, IsPrefix, Act, SharedFair, AtEnd;
    if actions != [] {
      var n := |actions| - 1;
      RunPrefix(w, sys, actions[..n]);
      ActPrefix(w, RunOf(w, sys, actions[..n]), actions[n]);
    }
  }

  /** Over every run of a shared pool the mirror is a prefix of the chain's leaves if and only if every leaf
      the wallet appended was appended when the mirror was all of them. */
  lemma MirrorIsPrefix(w: World, ownerSk: Fe, balances: map<Address, nat>, actions: seq<Action>)
    requires Assumed(w) && SharedRun(w, Fresh(w, ownerSk, balances), actions)
    ensures var sys := RunOf(w, Fresh(w, ownerSk, balances), actions);
      sys.wal.leaves <= sys.c.s.leaves <==> AllAtEnd(w, Fresh(w, ownerSk, balances), actions)
  {
    hide Ideal, TreeQueried, RunOf, SharedRun, AllAtEnd, Inv;
    StartHolds(w, balances);
    RunPrefix(w, Fresh(w, ownerSk, balances), actions);
  }
}
