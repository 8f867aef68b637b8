/** The wallet's files of cli/src/store.ts and their synchronisation with chain events in
    cli/src/index.ts: the note list, and the mirror of the on-chain leaves. */
module Store {
  import opened ScalarField
  import opened Merkle
  import opened Outcomes
  import ClientTree

  datatype WalletNote = WalletNote(
    asset: nat, amount: nat, ownerPk: Fe, rho: Fe, leafIndex: nat, commitment: Fe, spent: bool)

  /** A shield event: where a leaf went, and the leaf. */
  type LeafEvent = (nat, Fe)

  // ---- What the operations do to the files' contents ----

  function Struck(n: WalletNote, commitment: Fe): WalletNote {
    if n.commitment == commitment then n.(spent := true) else n
  }

  /** The notes with every note of that commitment marked spent. */
  function AllStruck(notes: seq<WalletNote>, commitment: Fe): (r: seq<WalletNote>)
    ensures |r| == |notes| && forall i :: 0 <= i < |notes| ==> r[i] == Struck(notes[i], commitment)
  {
    seq(|notes|, i requires 0 <= i < |notes| => Struck(notes[i], commitment))
  }

  ghost predicate Spendable(n: WalletNote, asset: nat) { n.asset == asset && !n.spent }

  /** Where the first unspent note of an asset is. */
  function FirstUnspent(notes: seq<WalletNote>, asset: nat): (r: Option<nat>)
    ensures r.None? ==> forall i :: 0 <= i < |notes| ==> !Spendable(notes[i], asset)
    ensures r.Some? ==> r.value < |notes| && Spendable(notes[r.value], asset)
    ensures r.Some? ==> forall i :: 0 <= i < r.value ==> !Spendable(notes[i], asset)
  {
    if notes == [] then None
    else if notes[0].asset == asset && !notes[0].spent then Some(0)
    else
      var rest := FirstUnspent(notes[1..], asset);
      assert forall i :: 1 <= i < |notes| ==> notes[i] == notes[1..][i - 1];
      if rest.None? then None else Some(rest.value + 1)
  }

  /** The leaf the first event at an index reports. */
  function Reported(events: seq<LeafEvent>, index: nat): Option<Fe> {
    if events == [] then None
    else if events[0].0 == index then Some(events[0].1)
    else Reported(events[1..], index)
  }

  /** r extends the mirror by reported leaves, and stops only where no event reports the next one. */
  ghost predicate IsMerge(mirror: seq<Fe>, events: seq<LeafEvent>, r: seq<Fe>) {
    && mirror <= r
    && (forall k :: |mirror| <= k < |r| ==> Reported(events, k) == Some(r[k]))
    && Reported(events, |r|).None?
  }

  /** Events that tell the truth about the chain's leaves. */
  ghost predicate Truthful(chain: seq<Fe>, events: seq<LeafEvent>) {
    forall e :: e in events ==> e.0 < |chain| && chain[e.0] == e.1
  }

  ghost predicate Mentioned(events: seq<LeafEvent>, index: nat) {
    exists e :: e in events && e.0 == index
  }

  lemma {:induction false} ReportedTruth(chain: seq<Fe>, events: seq<LeafEvent>, index: nat)
    requires Truthful(chain, events)
    ensures Reported(events, index).Some? <==> Mentioned(events, index)
    ensures Mentioned(events, index) ==> index < |chain| && Reported(events, index) == Some(chain[index])
  {
    if events != [] {
      assert events[0] in events;
      assert forall e :: e in events <==> e == events[0] || e in events[1..];
      ReportedTruth(chain, events[1..], index);
    }
  }

  /** Merging true events into a prefix of the chain gives a prefix of the chain that is no shorter, and
      it ends at the first index at or after the mirror's end that no event mentions. */
  lemma MergeIsPrefix(chain: seq<Fe>, mirror: seq<Fe>, events: seq<LeafEvent>, r: seq<Fe>)
    requires mirror <= chain && Truthful(chain, events) && IsMerge(mirror, events, r)
    ensures mirror <= r <= chain
    ensures !Mentioned(events, |r|) && forall k: nat :: |mirror| <= k < |r| ==> Mentioned(events, k)
  {
    hide Mentioned, Truthful;
    forall k: nat | |mirror| <= k < |r|
      ensures k < |chain| && r[k] == chain[k] && Mentioned(events, k)
    {
      ReportedTruth(chain, events, k);
      assert Reported(events, k) == Some(r[k]);
    }
    if |r| > |mirror| {
      ReportedTruth(chain, events, |r| - 1);
      assert Reported(events, |r| - 1) == Some(r[|r| - 1]);
    }
    ReportedTruth(chain, events, |r|);
  }

  /** True events keep a mirror a prefix of the chain, and never make it one. */
  lemma MergePrefixIff(chain: seq<Fe>, mirror: seq<Fe>, events: seq<LeafEvent>, r: seq<Fe>)
    requires Truthful(chain, events) && IsMerge(mirror, events, r)
    ensures r <= chain <==> mirror <= chain
  {
    if mirror <= chain {
      MergeIsPrefix(chain, mirror, events, r);
    }
  }

  /** Nor do they make it longer than the chain. */
  lemma MergeWithin(chain: seq<Fe>, mirror: seq<Fe>, events: seq<LeafEvent>, r: seq<Fe>)
    requires Truthful(chain, events) && IsMerge(mirror, events, r) && |mirror| <= |chain|
    ensures |r| <= |chain|
  {
    if |r| > |mirror| {
      ReportedTruth(chain, events, |r| - 1);
      assert Reported(events, |r| - 1) == Some(r[|r| - 1]);
    }
  }

  /** The result depends neither on the order nor on the repetition of the events. */
  lemma MergeUnordered(chain: seq<Fe>, mirror: seq<Fe>, events: seq<LeafEvent>, events': seq<LeafEvent>, r: seq<Fe>,
                       r': seq<Fe>)
    requires mirror <= chain && Truthful(chain, events)
    requires forall e :: e in events <==> e in events'
    requires IsMerge(mirror, events, r) && IsMerge(mirror, events', r')
    ensures r == r'
  {
    MergeIsPrefix(chain, mirror, events, r);
    MergeIsPrefix(chain, mirror, events', r');
    assert Mentioned(events, |r'|) == Mentioned(events', |r'|) && Mentioned(events, |r|) == Mentioned(events', |r|);
    assert |r| == |r'|;
  }

  /** Merging the same events again changes nothing. */
  lemma MergeIdempotent(mirror: seq<Fe>, events: seq<LeafEvent>, r: seq<Fe>, r': seq<Fe>)
    requires IsMerge(mirror, events, r) && IsMerge(r, events, r')
    ensures r' == r
  {
  }

  /** The first position of a leaf, or -1. */
  function IndexOf(leaves: seq<Fe>, c: Fe): (i: int)
    ensures -1 <= i < |leaves|
    ensures i >= 0 ==> leaves[i] == c && c !in leaves[..i]
    ensures i < 0 ==> c !in leaves
  {
    if leaves == [] then -1
    else if leaves[0] == c then 0
    else
      var rest := IndexOf(leaves[1..], c);
      if rest < 0 then -1 else assert leaves[..rest + 1] == [leaves[0]] + leaves[1..][..rest]; rest + 1
  }

  function Patched(n: WalletNote, leaves: seq<Fe>): WalletNote {
    var i := IndexOf(leaves, n.commitment);
    if i >= 0 then n.(leafIndex := i) else n
  }

  function AllPatched(notes: seq<WalletNote>, leaves: seq<Fe>): (r: seq<WalletNote>)
    ensures |r| == |notes| && forall i :: 0 <= i < |notes| ==> r[i] == Patched(notes[i], leaves)
  {
    seq(|notes|, i requires 0 <= i < |notes| => Patched(notes[i], leaves))
  }

  /** From n to m nothing but the index has changed: it is the first position of the note's commitment if
      the leaves hold it, and what it was if not. */
  ghost predicate IndexSettled(n: WalletNote, m: WalletNote, leaves: seq<Fe>) {
    && m.asset == n.asset && m.amount == n.amount && m.ownerPk == n.ownerPk && m.rho == n.rho
    && m.commitment == n.commitment && m.spent == n.spent
    && (n.commitment !in leaves ==> m.leafIndex == n.leafIndex)
    && (n.commitment in leaves ==>
          m.leafIndex < |leaves| && leaves[m.leafIndex] == n.commitment && n.commitment !in leaves[..m.leafIndex])
  }

  lemma AllSettled(notes: seq<WalletNote>, leaves: seq<Fe>)
    ensures forall i :: 0 <= i < |notes| ==> IndexSettled(notes[i], AllPatched(notes, leaves)[i], leaves)
  {
  }

  /** After a sync with true events, a note whose leaf is in the mirror has the index the chain has it at,
      whatever the file said before. */
  lemma SyncFindsIndex(chain: seq<Fe>, mirror: seq<Fe>, events: seq<LeafEvent>, r: seq<Fe>, n: WalletNote,
                       m: WalletNote,
                       k: nat)
    requires mirror <= chain && Truthful(chain, events) && IsMerge(mirror, events, r) && IndexSettled(n, m, r)
    requires forall i, j :: 0 <= i < j < |chain| ==> chain[i] != chain[j]
    requires k < |r| && k < |chain| && chain[k] == n.commitment
    ensures m.leafIndex == k
  {
    MergeIsPrefix(chain, mirror, events, r);
    assert r[k] == n.commitment;
    assert chain[m.leafIndex] == chain[k];
  }

  /** The first event at an index is the one that counts. */
  lemma {:induction false} ReportedFirst(events: seq<LeafEvent>, index: nat, leaf: Fe)
    ensures Reported(events, index) == Some(leaf)
      <==> exists j :: 0 <= j < |events| && events[j] == (index, leaf)
                       && forall i :: 0 <= i < j ==> events[i].0 != index
  {
    if events == [] {
    } else if events[0].0 == index {
      if events[0].1 == leaf {
        assert events[0] == (index, leaf);
      }
    } else {
      ReportedFirst(events[1..], index, leaf);
      if Reported(events, index) == Some(leaf) {
        var j :| 0 <= j < |events[1..]| && events[1..][j] == (index, leaf)
                 && forall i :: 0 <= i < j ==> events[1..][i].0 != index;
        assert events[j + 1] == (index, leaf);
        assert forall i :: 1 <= i < j + 1 ==> events[i] == events[1..][i - 1];
      }
      if j :| 0 <= j < |events| && events[j] == (index, leaf) && forall i :: 0 <= i < j ==> events[i].0 != index {
        assert events[1..][j - 1] == (index, leaf);
        assert forall i :: 0 <= i < j - 1 ==> events[1..][i] == events[i + 1];
      }
    }
  }

  // ---- Balances ----

  /** The total of the unspent notes of an asset. */
  function LocalTotal(notes: seq<WalletNote>, asset: nat): nat {
    if notes == [] then 0
    else
      var n := notes[|notes| - 1];
      LocalTotal(notes[..|notes| - 1], asset) + if n.asset == asset && !n.spent then n.amount else 0
  }

  /** The balance command's three totals; None where it fails on an unspent note of some other asset. */
  method Balances(notes: seq<WalletNote>) returns (r: Option<seq<nat>>)
    ensures r.None? <==> exists i :: 0 <= i < |notes| && !notes[i].spent && notes[i].asset > 2
    ensures r.Some? ==> |r.value| == 3 && forall a :: 0 <= a < 3 ==> r.value[a] == LocalTotal(notes, a)
  {
    var bal: seq<nat> := [0, 0, 0];
    for i := 0 to |notes|
      invariant |bal| == 3 && forall a :: 0 <= a < 3 ==> bal[a] == LocalTotal(notes[..i], a)
      invariant forall j :: 0 <= j < i ==> notes[j].spent || notes[j].asset <= 2
    {
      assert notes[..i + 1][..i] == notes[..i];
      var n := notes[i];
      if !n.spent {
        if n.asset > 2 {
          return None;
        }
        bal := bal[n.asset := bal[n.asset] + n.amount];
      }
    }
    assert notes[..|notes|] == notes;
    return Some(bal);
  }

  // ---- The merge ----

  /** The overlay loop: fills the array where the mirror has no leaf, leaving holes between. */
  method Overlay(mirror: seq<Fe>, events: seq<LeafEvent>) returns (merged: seq<Option<Fe>>)
    ensures |mirror| <= |merged| && forall k :: 0 <= k < |mirror| ==> merged[k] == Some(mirror[k])
    ensures forall k: nat :: |mirror| <= k ==> Reported(events, k) == if k < |merged| then merged[k] else None
  {
    merged := seq(|mirror|, i requires 0 <= i < |mirror| => Some(mirror[i]));
    var j := 0;
    while j < |events|
      invariant 0 <= j <= |events| && |mirror| <= |merged|
      invariant forall k :: 0 <= k < |mirror| ==> merged[k] == Some(mirror[k])
      invariant forall k: nat :: |mirror| <= k ==>
        Reported(events, k) == if k < |merged| && merged[k].Some? then merged[k] else Reported(events[j..], k)
    {
      var (index, leaf) := events[j];
      if index >= |merged| {
        merged := merged + seq(index - |merged|, i => None) + [Some(leaf)];
      } else if merged[index].None? {
        merged := merged[index := Some(leaf)];
      }
      j := j + 1;
    }
  }

  /** Overlay, then keep the contiguous prefix. */
  method Merge(mirror: seq<Fe>, events: seq<LeafEvent>) returns (contiguous: seq<Fe>)
    ensures IsMerge(mirror, events, contiguous)
  {
    var merged := Overlay(mirror, events);
    contiguous := [];
    var i := 0;
    while i < |merged| && merged[i].Some?
      invariant 0 <= i <= |merged| && |contiguous| == i
      invariant forall k :: 0 <= k < i ==> merged[k] == Some(contiguous[k])
    {
      contiguous := contiguous + [merged[i].value];
      i := i + 1;
    }
    assert |contiguous| >= |mirror|;
  }

  // ---- The files ----

  class Files {
    var notes: seq<WalletNote>
    var leaves: seq<Fe>

    constructor ()
      ensures notes == [] && leaves == []
    {
      notes, leaves := [], [];
    }

    method AddNote(n: WalletNote)
      modifies this`notes
      ensures notes == old(notes) + [n]
    {
      notes := notes + [n];
    }

    /** Marks every note of that commitment. */
    method MarkSpent(commitment: Fe)
      modifies this`notes
      ensures notes == AllStruck(old(notes), commitment)
      ensures |notes| == |old(notes)|
      ensures forall i :: 0 <= i < |notes| ==>
        notes[i] == old(notes)[i].(spent := old(notes)[i].spent || old(notes)[i].commitment == commitment)
    {
      var i := 0;
      while i < |notes|
        invariant 0 <= i <= |notes| == |old(notes)|
        invariant forall k :: 0 <= k < i ==> notes[k] == Struck(old(notes)[k], commitment)
        invariant forall k :: i <= k < |notes| ==> notes[k] == old(notes)[k]
      {
        if notes[i].commitment == commitment {
          notes := notes[i := notes[i].(spent := true)];
        }
        i := i + 1;
      }
    }

    /** Appends a leaf and returns its index. */
    method AppendLeaf(commitment: Fe) returns (index: nat)
      modifies this`leaves
      ensures leaves == old(leaves) + [commitment] && index == |old(leaves)|
    {
      index := |leaves|;
      leaves := leaves + [commitment];
    }

    /** Merges chain events into the mirror without ever shrinking it, and repairs note indices. */
    method SyncLeavesAndNotes(events: seq<LeafEvent>)
      modifies this
      ensures IsMerge(old(leaves), events, leaves)
      ensures notes == AllPatched(old(notes), leaves)
      ensures |notes| == |old(notes)| && forall i :: 0 <= i < |notes| ==> IndexSettled(old(notes)[i], notes[i], leaves)
    {
      var contiguous := Merge(leaves, events);
      if |contiguous| >= |leaves| && |contiguous| > 0 {
        leaves := contiguous;
      }
      assert leaves == contiguous;
      var i := 0;
      while i < |notes|
        invariant 0 <= i <= |notes| == |old(notes)| && leaves == contiguous
        invariant forall k :: 0 <= k < i ==> notes[k] == Patched(old(notes)[k], contiguous)
        invariant forall k :: i <= k < |notes| ==> notes[k] == old(notes)[k]
      {
        var idx := IndexOf(contiguous, notes[i].commitment);
        if idx >= 0 && idx != notes[i].leafIndex {
          notes := notes[i := notes[i].(leafIndex := idx)];
        }
        i := i + 1;
      }
      AllSettled(old(notes), leaves);
    }

    /** The local tree over the mirror; None when the mirror does not fit one tree. */
    method BuildTree(sc: Scheme<Fe>, depth: nat) returns (r: Option<ClientTree.MerkleTree<Fe>>)
      ensures r.None? <==> |leaves| > Pow2(depth)
      ensures r.Some? ==> r.value.Valid() && r.value.leaves == leaves && r.value.scheme == sc && r.value.depth == depth
    {
      var tree := new ClientTree.MerkleTree(sc, depth);
      var i := 0;
      while i < |leaves|
        invariant 0 <= i <= |leaves| && tree.Valid() && tree.leaves == leaves[..i]
      {
        var index := tree.Insert(leaves[i]);
        if index.None? {
          return None;
        }
        i := i + 1;
      }
      r := Some(tree);
    }
  }
}
