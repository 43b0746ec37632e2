/** Agreement over one pool: when two hashes can both be final, exactly. */
module FinalityAgreement {
  import opened Collections
  import opened Finality
  import opened FinalityProperties

  /** v attested in two different epochs of the pool. */
  ghost predicate InTwoEpochs(pool: seq<Attestation>, v: string) {
    exists a, b :: a in pool && b in pool && a.mosaicRoot == v && b.mosaicRoot == v && a.epoch != b.epoch
  }

  /** The sealed validators that attested in two different epochs. */
  ghost function TwoEpochAttesters(pool: seq<Attestation>, vs: ValidatorSet): set<string> {
    set v | v in vs.validators && InTwoEpochs(pool, v)
  }

  /**
   * Two hashes final over one pool: every validator counted for both attested them, and only ever in
   * different epochs.
   */
  lemma TwoHashesNeedTwoEpochs(q: Query, other: string)
    requires other != q.constitutionalHash
    requires Final(q) && Final(q.(constitutionalHash := other))
    ensures var common := Accepted(q) * Accepted(q.(constitutionalHash := other));
            && |common| >= Overlap(q.validatorSet)
            && common <= TwoEpochAttesters(q.attestations, q.validatorSet)
            && (forall v :: v in common ==> exists a, b ::
                    && a in q.attestations && b in q.attestations && a.mosaicRoot == v && b.mosaicRoot == v
                    && a.constitutionalHash == q.constitutionalHash && b.constitutionalHash == other
                    && a.epoch != b.epoch)
  {
    var p := q.(constitutionalHash := other);
    QuorumsIntersect(q, p);
    AcceptedExact(q);
    AcceptedExact(p);
    forall v | v in Accepted(q) * Accepted(p)
      ensures exists a, b ::
                && a in q.attestations && b in q.attestations && a.mosaicRoot == v && b.mosaicRoot == v
                && a.constitutionalHash == q.constitutionalHash && b.constitutionalHash == other
                && a.epoch != b.epoch
    {
      var a :| a in q.attestations && a.mosaicRoot == v && a.constitutionalHash == q.constitutionalHash;
      var b :| b in q.attestations && b.mosaicRoot == v && b.constitutionalHash == other;
      assert !Equivocates(q.attestations, v);
    }
  }

  /** Agreement over a pool whose two-epoch attesters are fewer than the overlap of two quorums. */
  lemma AgreementBelowOverlap(q: Query, other: string)
    requires |TwoEpochAttesters(q.attestations, q.validatorSet)| < Overlap(q.validatorSet)
    requires Final(q) && Final(q.(constitutionalHash := other))
    ensures other == q.constitutionalHash
  {
    if other != q.constitutionalHash {
      TwoHashesNeedTwoEpochs(q, other);
      SubsetCardinality(Accepted(q) * Accepted(q.(constitutionalHash := other)),
                        TwoEpochAttesters(q.attestations, q.validatorSet));
    }
  }

  /** In particular, over a pool of one epoch at most one hash is final, with no assumption on honesty. */
  lemma SinglePoolAgreement(q: Query, other: string, epoch: int)
    requires q.validatorSet.Counted() && SingleEpoch(q.attestations, epoch)
    requires Final(q) && Final(q.(constitutionalHash := other))
    ensures other == q.constitutionalHash
  {
    assert TwoEpochAttesters(q.attestations, q.validatorSet) == {};
    AgreementBelowOverlap(q, other);
  }

  /** Every pool with these two-epoch attesters makes at most one hash final. */
  ghost predicate AlwaysAgrees(vs: ValidatorSet, sigOk: SignatureCheck, attesters: set<string>) {
    forall q: Query, other: string ::
      && q.validatorSet == vs && q.sigOk == sigOk && TwoEpochAttesters(q.attestations, vs) == attesters
      && Final(q) && Final(q.(constitutionalHash := other))
      ==> other == q.constitutionalHash
  }

  // ---- the bound is sharp --------------------------------------------------------------------------

  /** Some listing of a set. */
  ghost function Listed(s: set<string>): (l: seq<string>)
    ensures forall v :: v in l <==> v in s
  {
    if s == {} then []
    else
      var v :| v in s;
      Listed(s - {v}) + [v]
  }

  lemma {:induction false} SubsetOfSize(s: set<string>, n: nat) returns (t: set<string>)
    requires n <= |s|
    ensures t <= s && |t| == n
  {
    t := {};
    if n > 0 {
      var v :| v in s;
      var rest := SubsetOfSize(s - {v}, n - 1);
      t := rest + {v};
    }
  }

  /** The movers vote h0 in epoch 0 and h1 in epoch 1; the others vote once, for h0 or h1, in epoch 0. */
  ghost function SplitPool(ring: Keyring, movers: set<string>, left: set<string>, right: set<string>): seq<Attestation> {
    Votes(ring, Listed(movers + left), "h0", 0) + Votes(ring, Listed(movers), "h1", 1)
    + Votes(ring, Listed(right), "h1", 0)
  }

  lemma SplitPoolExact(ring: Keyring, movers: set<string>, left: set<string>, right: set<string>, a: Attestation)
    ensures a in SplitPool(ring, movers, left, right) <==>
            || (a.mosaicRoot in movers + left && a == Vote(ring, a.mosaicRoot, "h0", 0, "t"))
            || (a.mosaicRoot in movers && a == Vote(ring, a.mosaicRoot, "h1", 1, "t"))
            || (a.mosaicRoot in right && a == Vote(ring, a.mosaicRoot, "h1", 0, "t"))
  {
    VotesExact(ring, Listed(movers + left), "h0", 0, a);
    VotesExact(ring, Listed(movers), "h1", 1, a);
    VotesExact(ring, Listed(right), "h1", 0, a);
  }

  lemma NobodyEquivocatesInSplit(ring: Keyring, movers: set<string>, left: set<string>, right: set<string>, v: string)
    requires movers !! left && movers !! right && left !! right
    ensures !Equivocates(SplitPool(ring, movers, left, right), v)
  {
    var pool := SplitPool(ring, movers, left, right);
    forall a, b | a in pool && b in pool && a.mosaicRoot == v && b.mosaicRoot == v && a.epoch == b.epoch
      ensures a.constitutionalHash == b.constitutionalHash
    {
      SplitPoolExact(ring, movers, left, right, a);
      SplitPoolExact(ring, movers, left, right, b);
    }
  }

  lemma SplitPoolMovers(ring: Keyring, movers: set<string>, left: set<string>, right: set<string>, vs: ValidatorSet)
    requires movers !! left && movers !! right && left !! right && movers <= Elements(vs.validators)
    ensures TwoEpochAttesters(SplitPool(ring, movers, left, right), vs) == movers
  {
    var pool := SplitPool(ring, movers, left, right);
    forall v
      ensures InTwoEpochs(pool, v) <==> v in movers
    {
      if v in movers {
        var a, b := Vote(ring, v, "h0", 0, "t"), Vote(ring, v, "h1", 1, "t");
        SplitPoolExact(ring, movers, left, right, a);
        SplitPoolExact(ring, movers, left, right, b);
        assert a in pool && b in pool && a.epoch != b.epoch;
      } else {
        forall a | a in pool && a.mosaicRoot == v
          ensures a.epoch == 0
        {
          SplitPoolExact(ring, movers, left, right, a);
        }
      }
    }
  }

  /** A side of the split whose supporters meet the threshold is final. */
  lemma SupportedSideIsFinal(ring: Keyring, q: Query, supporters: set<string>)
    requires ring.Works() && q.sigOk == ring.sigOk
    requires supporters <= Elements(q.validatorSet.validators)
    requires forall v :: v in supporters ==>
                           && !Equivocates(q.attestations, v)
                           && exists e :: Vote(ring, v, q.constitutionalHash, e, "t") in q.attestations
    requires |supporters| >= QuorumThreshold(q.validatorSet.nValidators)
    ensures Final(q)
  {
    AcceptedExact(q);
    forall v | v in supporters
      ensures v in Accepted(q)
    {
      var e :| Vote(ring, v, q.constitutionalHash, e, "t") in q.attestations;
      var a := Vote(ring, v, q.constitutionalHash, e, "t");
      assert a.mosaicRoot == v && a.constitutionalHash == q.constitutionalHash && a.Verify(q.sigOk);
    }
    SubsetCardinality(supporters, Accepted(q));
  }

  lemma SplitFinalizesBoth(ring: Keyring, vs: ValidatorSet, movers: set<string>, left: set<string>, right: set<string>)
    requires ring.Works()
    requires movers !! left && movers !! right && left !! right
    requires movers + left + right <= Elements(vs.validators)
    requires |movers + left| >= QuorumThreshold(vs.nValidators)
    requires |movers + right| >= QuorumThreshold(vs.nValidators)
    ensures var q := Query(SplitPool(ring, movers, left, right), vs, "h0", ring.sigOk);
            Final(q) && Final(q.(constitutionalHash := "h1"))
  {
    var pool := SplitPool(ring, movers, left, right);
    forall v
      ensures !Equivocates(pool, v)
    {
      NobodyEquivocatesInSplit(ring, movers, left, right, v);
    }
    forall v | v in movers + left
      ensures Vote(ring, v, "h0", 0, "t") in pool
    {
      SplitPoolExact(ring, movers, left, right, Vote(ring, v, "h0", 0, "t"));
    }
    forall v | v in movers + right
      ensures Vote(ring, v, "h1", if v in movers then 1 else 0, "t") in pool
    {
      SplitPoolExact(ring, movers, left, right, Vote(ring, v, "h1", if v in movers then 1 else 0, "t"));
    }
    var q := Query(pool, vs, "h0", ring.sigOk);
    SupportedSideIsFinal(ring, q, movers + left);
    SupportedSideIsFinal(ring, q.(constitutionalHash := "h1"), movers + right);
  }

  /** Enough movers to span the overlap leave enough of the rest to split into two quorums. */
  lemma MoversSplitTheRest(vs: ValidatorSet, movers: set<string>) returns (left: set<string>, right: set<string>)
    requires movers <= Elements(vs.validators) && |movers| >= Overlap(vs)
    ensures movers !! left && movers !! right && left !! right
    ensures movers + left + right == Elements(vs.validators)
    ensures |movers + left| >= QuorumThreshold(vs.nValidators)
    ensures |movers + right| >= QuorumThreshold(vs.nValidators)
  {
    var all, t := Elements(vs.validators), QuorumThreshold(vs.nValidators);
    SubsetCardinality(movers, all);
    var rest := all - movers;
    DifferenceCardinality(all, movers);
    left := SubsetOfSize(rest, Max(0, t - |movers|));
    right := rest - left;
    DifferenceCardinality(rest, left);
    assert |movers + left| == |movers| + |left| && |movers + right| == |movers| + |right|;
  }

  lemma FewMoversAlwaysAgree(vs: ValidatorSet, sigOk: SignatureCheck, attesters: set<string>)
    requires |attesters| < Overlap(vs)
    ensures AlwaysAgrees(vs, sigOk, attesters)
  {
    forall q: Query, other: string |
      && q.validatorSet == vs && q.sigOk == sigOk && TwoEpochAttesters(q.attestations, vs) == attesters
      && Final(q) && Final(q.(constitutionalHash := other))
      ensures other == q.constitutionalHash
    {
      AgreementBelowOverlap(q, other);
    }
  }

  lemma EnoughMoversDisagree(ring: Keyring, vs: ValidatorSet, attesters: set<string>) returns (q: Query)
    requires ring.Works() && attesters <= Elements(vs.validators) && |attesters| >= Overlap(vs)
    ensures q.validatorSet == vs && q.sigOk == ring.sigOk && TwoEpochAttesters(q.attestations, vs) == attesters
    ensures q.constitutionalHash == "h0" && Final(q) && Final(q.(constitutionalHash := "h1"))
  {
    var left, right := MoversSplitTheRest(vs, attesters);
    SplitFinalizesBoth(ring, vs, attesters, left, right);
    SplitPoolMovers(ring, attesters, left, right, vs);
    q := Query(SplitPool(ring, attesters, left, right), vs, "h0", ring.sigOk);
  }

  /**
   * Agreement, exactly. Pools whose sealed two-epoch attesters are a given set always agree on one final hash
   * if and only if that set is smaller than the overlap of two quorums.
   */
  lemma AgreementIff(ring: Keyring, vs: ValidatorSet, attesters: set<string>)
    requires ring.Works() && attesters <= Elements(vs.validators)
    ensures AlwaysAgrees(vs, ring.sigOk, attesters) <==> |attesters| < Overlap(vs)
  {
    if |attesters| < Overlap(vs) {
      FewMoversAlwaysAgree(vs, ring.sigOk, attesters);
    } else {
      var q := EnoughMoversDisagree(ring, vs, attesters);
    }
  }

  /** The smallest case: one sealed validator attesting in two epochs makes two hashes final. */
  lemma OneMoverFinalizesTwoHashes(ring: Keyring, v: string)
    requires ring.Works()
    ensures var pool := [Vote(ring, v, "h0", 0, "t"), Vote(ring, v, "h1", 1, "t")];
            var q := Query(pool, SealValidatorSet([v]), "h0", ring.sigOk);
            Final(q) && Final(q.(constitutionalHash := "h1"))
  {
    var pool := [Vote(ring, v, "h0", 0, "t"), Vote(ring, v, "h1", 1, "t")];
    var q := Query(pool, SealValidatorSet([v]), "h0", ring.sigOk);
    assert pool[0] in pool && pool[1] in pool && v in [v];
    assert !Equivocates(pool, v);
    assert v in SealValidatorSet([v]).validators;
    SupportedSideIsFinal(ring, q, {v});
    SupportedSideIsFinal(ring, q.(constitutionalHash := "h1"), {v});
  }
}
