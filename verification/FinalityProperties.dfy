/** What finality guarantees: exact counting, agreement, accountability, liveness. */
module FinalityProperties {
  import opened Collections
  import opened Ordering
  import opened Finality

  /** The validators counted by the call q. */
  ghost function Accepted(q: Query): set<string> {
    Roots(Valid(q))
  }

  ghost predicate SingleEpoch(attestations: seq<Attestation>, epoch: int) {
    forall a :: a in attestations ==> a.epoch == epoch
  }

  // ---- counting ------------------------------------------------------------------------

  /** Accepted attestations of validators already counted: neither valid nor invalid. */
  ghost function RepeatsOf(q: Query, prefix: seq<Attestation>): seq<Attestation> {
    if prefix == [] then []
    else
      var init, a := prefix[..|prefix| - 1], prefix[|prefix| - 1];
      RepeatsOf(q, init) + if Accepts(q, a) && a.mosaicRoot in Roots(ValidOf(q, init)) then [a] else []
  }

  ghost predicate OneEach(valid: seq<Attestation>) {
    forall a, b :: a in valid && b in valid && a.mosaicRoot == b.mosaicRoot ==> a == b
  }

  lemma OneEachSnoc(valid: seq<Attestation>, a: Attestation)
    requires OneEach(valid) && |Roots(valid)| == |valid|
    requires a.mosaicRoot !in Roots(valid)
    ensures OneEach(valid + [a]) && |Roots(valid + [a])| == |valid + [a]|
  {
    RootsOfAppend(valid, a);
    assert forall x :: x in valid + [a] <==> x in valid || x == a;
    assert forall x :: x in valid ==> x.mosaicRoot in Roots(valid);
  }

  lemma {:induction false} ValidOfExact(q: Query, prefix: seq<Attestation>)
    ensures |Roots(ValidOf(q, prefix))| == |ValidOf(q, prefix)| && OneEach(ValidOf(q, prefix))
    ensures forall a :: a in ValidOf(q, prefix) ==> a in prefix && Accepts(q, a)
  {
    if prefix != [] {
      var init, a := prefix[..|prefix| - 1], prefix[|prefix| - 1];
      assert prefix == init + [a];
      ValidOfExact(q, init);
      ValidSnoc(q, init, a);
      if a.mosaicRoot !in Roots(ValidOf(q, init)) {
        OneEachSnoc(ValidOf(q, init), a);
      }
    }
  }

  lemma {:induction false} AcceptedIsCounted(q: Query, prefix: seq<Attestation>)
    ensures forall a :: a in prefix && Accepts(q, a) ==> a.mosaicRoot in Roots(ValidOf(q, prefix))
  {
    if prefix != [] {
      var init, a := prefix[..|prefix| - 1], prefix[|prefix| - 1];
      assert prefix == init + [a];
      AcceptedIsCounted(q, init);
      ValidSnoc(q, init, a);
      RootsOfAppend(ValidOf(q, init), a);
    }
  }

  /** One entry per sealed, non-equivocating validator that has some verifying attestation for the hash. */
  lemma AcceptedExact(q: Query)
    ensures |Valid(q)| == |Accepted(q)|
    ensures forall v :: v in Accepted(q) <==>
                          && v in q.validatorSet.validators
                          && !Equivocates(q.attestations, v)
                          && exists a :: a in q.attestations && a.mosaicRoot == v
                                         && a.constitutionalHash == q.constitutionalHash && a.Verify(q.sigOk)
    ensures Accepted(q) <= Elements(q.validatorSet.validators)
  {
    ValidOfExact(q, q.attestations);
    AcceptedIsCounted(q, q.attestations);
    forall a | a in q.attestations && Accepts(q, a)
      ensures a.mosaicRoot in Accepted(q)
    {
    }
  }

  /** Input i is the first accepted attestation of its validator. */
  ghost predicate FirstAccepted(q: Query, prefix: seq<Attestation>, i: int) {
    && 0 <= i < |prefix| && Accepts(q, prefix[i])
    && forall j :: 0 <= j < i && Accepts(q, prefix[j]) ==> prefix[j].mosaicRoot != prefix[i].mosaicRoot
  }

  /** The attestation kept for a validator is its first accepted one, and every such one is kept. */
  lemma {:induction false} ValidKeepsFirst(q: Query, prefix: seq<Attestation>, a: Attestation)
    ensures a in ValidOf(q, prefix) <==> exists i :: FirstAccepted(q, prefix, i) && prefix[i] == a
  {
    if prefix != [] {
      var init, last := prefix[..|prefix| - 1], prefix[|prefix| - 1];
      assert prefix == init + [last];
      ValidKeepsFirst(q, init, a);
      ValidSnoc(q, init, last);
      ValidOfExact(q, init);
      AcceptedIsCounted(q, init);
      forall i
        ensures FirstAccepted(q, prefix, i) <==>
                || FirstAccepted(q, init, i)
                || (i == |init| && Accepts(q, last) && last.mosaicRoot !in Roots(ValidOf(q, init)))
      {
        FirstAcceptedStep(q, init, last, i);
      }
      if i :| FirstAccepted(q, init, i) && init[i] == a {
        assert FirstAccepted(q, prefix, i) && prefix[i] == a;
      }
      if Accepts(q, last) && last.mosaicRoot !in Roots(ValidOf(q, init)) && a == last {
        assert FirstAccepted(q, prefix, |init|) && prefix[|init|] == a;
      }
    }
  }

  lemma FirstAcceptedStep(q: Query, init: seq<Attestation>, last: Attestation, i: int)
    ensures FirstAccepted(q, init + [last], i) <==>
            || FirstAccepted(q, init, i)
            || (i == |init| && Accepts(q, last) && last.mosaicRoot !in Roots(ValidOf(q, init)))
  {
    var prefix := init + [last];
    ValidOfExact(q, init);
    AcceptedIsCounted(q, init);
    assert forall j :: 0 <= j < |init| ==> prefix[j] == init[j];
    if i == |init| && Accepts(q, last) {
      if last.mosaicRoot in Roots(ValidOf(q, init)) {
        var b :| b in ValidOf(q, init) && b.mosaicRoot == last.mosaicRoot;
        var j :| 0 <= j < |init| && init[j] == b;
        assert Accepts(q, prefix[j]);
      } else {
        forall j | 0 <= j < |init| && Accepts(q, prefix[j])
          ensures prefix[j].mosaicRoot != last.mosaicRoot
        {
          assert init[j] in init;
        }
      }
    }
  }

  /** Every input is counted once: as a first acceptance, a rejection, or a repeat of a counted validator. */
  lemma {:induction false} InputsPartition(q: Query, prefix: seq<Attestation>)
    ensures multiset(prefix) ==
            multiset(ValidOf(q, prefix)) + multiset(InvalidOf(q, prefix)) + multiset(RepeatsOf(q, prefix))
    ensures forall a :: a in InvalidOf(q, prefix) <==> a in prefix && !Accepts(q, a)
    ensures forall a :: a in RepeatsOf(q, prefix) ==> Accepts(q, a) && a.mosaicRoot in Roots(ValidOf(q, prefix))
  {
    if prefix != [] {
      var init, a := prefix[..|prefix| - 1], prefix[|prefix| - 1];
      assert prefix == init + [a];
      InputsPartition(q, init);
      RootsOfAppend(ValidOf(q, init), a);
    }
  }

  /** Permuting or duplicating the attestations changes neither who is counted nor the verdict. */
  lemma OrderIndependent(q: Query, attestations: seq<Attestation>)
    requires Elements(attestations) == Elements(q.attestations)
    ensures var p := q.(attestations := attestations);
            && Accepted(p) == Accepted(q) && Final(p) == Final(q)
            && EquivocatorsOf(p.attestations) == EquivocatorsOf(q.attestations)
            && Elements(InvalidOf(p, p.attestations)) == Elements(InvalidOf(q, q.attestations))
  {
    var p := q.(attestations := attestations);
    SameElements(p.attestations, q.attestations);
    AcceptedExact(p);
    AcceptedExact(q);
    assert forall v :: Equivocates(p.attestations, v) <==> Equivocates(q.attestations, v);
    assert forall v :: v in Accepted(p) <==> v in Accepted(q);
    InputsPartition(p, p.attestations);
    InputsPartition(q, q.attestations);
    assert forall a :: Accepts(p, a) <==> Accepts(q, a);
    var fp, fq := FlaggedRoots(p.attestations, p.attestations), FlaggedRoots(q.attestations, q.attestations);
    assert Elements(fp) == Elements(fq) by {
      assert forall v :: v in fp <==> v in fq;
    }
    SortedSetIsCanonical(fp, fq);
  }

  lemma SameElements<T>(a: seq<T>, b: seq<T>)
    requires Elements(a) == Elements(b)
    ensures forall x :: x in a <==> x in b
  {
    forall x
      ensures x in a <==> x in b
    {
      assert x in Elements(a) <==> x in Elements(b);
    }
  }

  // ---- agreement and accountability -------------------------------------------------------

  /** How many validators two quorums must share: twice the threshold less the distinct validators. */
  function Overlap(vs: ValidatorSet): int {
    2 * QuorumThreshold(vs.nValidators) - |Elements(vs.validators)|
  }

  /** Two final calls over one sealed set share at least the overlap; where the set is counted, 3|I| >= N + 2. */
  lemma QuorumsIntersect(q1: Query, q2: Query)
    requires q1.validatorSet == q2.validatorSet
    requires Final(q1) && Final(q2)
    ensures |Accepted(q1) * Accepted(q2)| >= Overlap(q1.validatorSet)
    ensures q1.validatorSet.Counted() ==>
              3 * |Accepted(q1) * Accepted(q2)| >= q1.validatorSet.nValidators + 2
  {
    AcceptedExact(q1);
    AcceptedExact(q2);
    var a1, a2 := Accepted(q1), Accepted(q2);
    SubsetCardinality(a1 + a2, Elements(q1.validatorSet.validators));
    assert |a1 + a2| + |a1 * a2| == |a1| + |a2|;
  }

  /**
   * Accountable safety. If two lists of one epoch make different hashes final, the validators counted in both
   * number at least the overlap, more than a third of the sealed set; none was flagged by its own list, and
   * all of them are reported once the lists are put together.
   */
  lemma AccountableSafety(q1: Query, q2: Query, epoch: int)
    requires q1.validatorSet == q2.validatorSet && q1.validatorSet.Counted()
    requires SingleEpoch(q1.attestations, epoch) && SingleEpoch(q2.attestations, epoch)
    requires q1.constitutionalHash != q2.constitutionalHash
    requires Final(q1) && Final(q2)
    ensures var shared := Accepted(q1) * Accepted(q2);
            && |shared| >= Overlap(q1.validatorSet) && 3 * |shared| >= q1.validatorSet.nValidators + 2
            && forall v :: v in shared ==>
                             && v in EquivocatorsOf(q1.attestations + q2.attestations)
                             && v !in EquivocatorsOf(q1.attestations) && v !in EquivocatorsOf(q2.attestations)
  {
    QuorumsIntersect(q1, q2);
    AcceptedExact(q1);
    AcceptedExact(q2);
    var all := q1.attestations + q2.attestations;
    EquivocatorsExact(q1.attestations);
    EquivocatorsExact(q2.attestations);
    EquivocatorsExact(all);
    forall v | v in Accepted(q1) * Accepted(q2)
      ensures Equivocates(all, v)
    {
      var a :| a in q1.attestations && a.mosaicRoot == v && a.constitutionalHash == q1.constitutionalHash;
      var b :| b in q2.attestations && b.mosaicRoot == v && b.constitutionalHash == q2.constitutionalHash;
      assert a in all && b in all;
    }
  }

  // ---- liveness ------------------------------------------------------------------------------

  /** Sealed validators that the call could not count: silent, flagged, or with nothing that verifies. */
  ghost function Missing(q: Query): set<string> {
    Elements(q.validatorSet.validators) - Accepted(q)
  }

  lemma ThresholdComplement(n: int)
    requires n >= 1
    ensures n - QuorumThreshold(n) == (n - 1) / 3
  {
  }

  /** With N distinct validators, finality holds exactly when at most floor((N-1)/3) are missing. */
  lemma FinalIffFewMissing(q: Query)
    requires q.validatorSet.Exact() && q.validatorSet.nValidators >= 1
    ensures Final(q) <==> |Missing(q)| <= (q.validatorSet.nValidators - 1) / 3
  {
    AcceptedExact(q);
    ThresholdComplement(q.validatorSet.nValidators);
    DifferenceCardinality(Elements(q.validatorSet.validators), Accepted(q));
  }

  lemma DifferenceCardinality<T>(large: set<T>, small: set<T>)
    requires small <= large
    ensures |large - small| == |large| - |small|
  {
    assert large == small + (large - small);
  }

  // ---- pools that validators can produce ---------------------------------------------------------

  /** A key and a signing function for every validator name. */
  datatype Keyring = Keyring(
    sigOk: SignatureCheck,
    keyOf: string -> string,
    sign: (string, SigPayload) -> string)
  {
    ghost predicate Works() {
      forall v, p :: sigOk(p, sign(v, p), keyOf(v))
    }
  }

  /** v's attestation, signed with v's key. */
  function Vote(ring: Keyring, v: string, hash: string, epoch: int, timestamp: string): Attestation {
    Attestation(v, hash, "phase", epoch, timestamp,
                ring.sign(v, SigPayload(hash, epoch, v, "phase", timestamp)), ring.keyOf(v))
  }

  /** One vote by each listed validator. */
  function Votes(ring: Keyring, voters: seq<string>, hash: string, epoch: int): seq<Attestation> {
    seq(|voters|, i requires 0 <= i < |voters| => Vote(ring, voters[i], hash, epoch, "t"))
  }

  lemma VotesExact(ring: Keyring, voters: seq<string>, hash: string, epoch: int, a: Attestation)
    ensures a in Votes(ring, voters, hash, epoch) <==>
            exists v :: v in voters && a == Vote(ring, v, hash, epoch, "t")
  {
    var votes := Votes(ring, voters, hash, epoch);
    if v :| v in voters && a == Vote(ring, v, hash, epoch, "t") {
      var i :| 0 <= i < |voters| && voters[i] == v;
      assert votes[i] == a;
    }
  }

  /** The call in which every sealed validator votes for one hash. */
  function FullTurnout(ring: Keyring, validators: seq<string>, hash: string): Query {
    Query(Votes(ring, validators, hash, 0), SealValidatorSet(validators), hash, ring.sigOk)
  }

  lemma FullTurnoutCountsEverybody(ring: Keyring, validators: seq<string>, hash: string)
    requires ring.Works()
    ensures Accepted(FullTurnout(ring, validators, hash)) == Elements(validators)
  {
    var q := FullTurnout(ring, validators, hash);
    AcceptedExact(q);
    assert forall v :: !Equivocates(q.attestations, v);
    forall v | v in validators
      ensures v in Accepted(q)
    {
      var a := Vote(ring, v, hash, 0, "t");
      VotesExact(ring, validators, hash, 0, a);
      assert a in q.attestations && a.mosaicRoot == v && a.constitutionalHash == hash && a.Verify(q.sigOk);
    }
  }

  /** A sealed list with repeated names raises the threshold; it can finalize at all exactly under this bound. */
  lemma SealedListCanFinalizeIff(ring: Keyring, validators: seq<string>)
    requires ring.Works()
    ensures (exists q: Query :: q.validatorSet == SealValidatorSet(validators) && q.sigOk == ring.sigOk && Final(q)) <==>
            |Elements(validators)| >= QuorumThreshold(|validators|)
  {
    var sealed := SealValidatorSet(validators);
    if q: Query :| q.validatorSet == sealed && q.sigOk == ring.sigOk && Final(q) {
      AcceptedExact(q);
      assert Accepted(q) <= Elements(validators);
      SubsetCardinality(Accepted(q), Elements(validators));
    }
    if |Elements(validators)| >= QuorumThreshold(|validators|) {
      FullTurnoutCountsEverybody(ring, validators, "h");
      AcceptedExact(FullTurnout(ring, validators, "h"));
      assert Final(FullTurnout(ring, validators, "h"));
    }
  }

  /** Sealing one name twice makes finality unreachable. */
  lemma RepeatedNameBlocksFinality(q: Query)
    requires q.validatorSet == SealValidatorSet(["v", "v"])
    ensures !Final(q)
  {
    AcceptedExact(q);
    assert Accepted(q) <= {"v"};
    SubsetCardinality(Accepted(q), {"v"});
  }

  /** More attestations un-count exactly the validators then flagged as equivocators, and nobody else. */
  lemma LostOnlyByEquivocation(q: Query, more: seq<Attestation>)
    ensures var p := q.(attestations := q.attestations + more);
            && (forall v :: v in Accepted(q) - Accepted(p) <==>
                              v in Accepted(q) && v in EquivocatorsOf(p.attestations))
            && (Final(q) && !Final(p) ==> exists v :: v in Accepted(q) && v in EquivocatorsOf(p.attestations))
  {
    var p := q.(attestations := q.attestations + more);
    forall v | v in Accepted(q)
      ensures v in Accepted(p) <==> v !in EquivocatorsOf(p.attestations)
    {
      KeptUnlessFlagged(q, p, v);
    }
    if Final(q) && !Final(p) && Accepted(q) <= Accepted(p) {
      SubsetCardinality(Accepted(q), Accepted(p));
      AcceptedExact(q);
      AcceptedExact(p);
      assert false;
    }
  }

  lemma KeptUnlessFlagged(q: Query, p: Query, v: string)
    requires p == q.(attestations := p.attestations)
    requires Elements(q.attestations) <= Elements(p.attestations)
    requires v in Accepted(q)
    ensures v in Accepted(p) <==> v !in EquivocatorsOf(p.attestations)
  {
    AcceptedExact(q);
    AcceptedExact(p);
    EquivocatorsExact(p.attestations);
    var a :| a in q.attestations && a.mosaicRoot == v
             && a.constitutionalHash == q.constitutionalHash && a.Verify(q.sigOk);
    assert a in Elements(p.attestations);
  }
}
