/** The contract keys spent nullifiers by raw 32-byte strings, while a proof speaks of a field element. What
    the keys must be for one to mean the other. */
module ByteKeys {
  import opened ScalarField
  import opened ByteTree

  /** Each field element has one key among these. */
  ghost predicate OneKeyEach(keys: iset<Digest>) {
    forall d, e :: d in keys && e in keys && Read(d) == Read(e) ==> d == e
  }

  ghost predicate AllCanonical(keys: iset<Digest>) {
    forall d :: d in keys ==> IsCanonical(d)
  }

  /** Every string reads as its canonical form does. */
  lemma CanonicalTwin(d: Digest)
    ensures Read(Canonical(Read(d))) == Read(d) && IsCanonical(Canonical(Read(d)))
    ensures Canonical(Read(d)) == d <==> IsCanonical(d)
  {
    hide Read, Canonical, IsCanonical;
    ReadCanonical(Read(d));
    if IsCanonical(d) {
      CanonicalRead(d);
    }
  }

  /** If every canonical string is a key, a key identifies its field element exactly when there are no other
      keys: canonicity of keys is what single spend by raw bytes needs, no more and no less. */
  lemma KeysIdentify(keys: iset<Digest>)
    requires forall x: Fe :: Canonical(x) in keys
    ensures OneKeyEach(keys) <==> AllCanonical(keys)
  {
    hide Read, Canonical, IsCanonical;
    if OneKeyEach(keys) {
      forall d | d in keys
        ensures IsCanonical(d)
      {
        CanonicalTwin(d);
        assert Canonical(Read(d)) in keys;
      }
    }
    if AllCanonical(keys) {
      forall d, e | d in keys && e in keys && Read(d) == Read(e)
        ensures d == e
      {
        CanonicalTwin(d);
        CanonicalTwin(e);
      }
    }
  }

  /** The spent set as the contract keeps it, and as the run model does. */
  ghost function ReadSet(used: set<Digest>): set<Fe> { set d | d in used :: Read(d) }

  /** With canonical keys the contract's test on bytes is the run model's test on field elements, and spending
      keeps the two sets in step. */
  lemma SpentSetsAgree(used: set<Digest>, d: Digest)
    requires forall e :: e in used ==> IsCanonical(e)
    requires IsCanonical(d)
    ensures d in used <==> Read(d) in ReadSet(used)
    ensures ReadSet(used + {d}) == ReadSet(used) + {Read(d)}
    ensures d !in used ==> |ReadSet(used + {d})| == |ReadSet(used)| + 1
  {
    hide Read, Canonical, IsCanonical;
    CanonicalTwin(d);
    if Read(d) in ReadSet(used) {
      var e :| e in used && Read(e) == Read(d);
      CanonicalTwin(e);
    }
  }
}
