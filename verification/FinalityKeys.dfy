/** What counting and flagging say about who signed: names, keys and verification are separate checks. */
module FinalityKeys {
  import opened Collections
  import opened Ordering
  import opened Finality
  import opened FinalityProperties

  /** MosaicID of a key. */
  type MosaicId = string -> string

  /** v signed for the hash with a key whose MosaicID is v. */
  ghost predicate Signed(pool: seq<Attestation>, sigOk: SignatureCheck, mosaic: MosaicId, v: string, hash: string) {
    exists a :: && a in pool && a.mosaicRoot == v && mosaic(a.pubkeyHex) == v
                && a.constitutionalHash == hash && a.Verify(sigOk)
  }

  /** Every attestation carries the key its name is derived from. */
  ghost predicate KeysBound(pool: seq<Attestation>, mosaic: MosaicId) {
    forall a :: a in pool ==> mosaic(a.pubkeyHex) == a.mosaicRoot
  }

  /** The attestation carries the key of its name. */
  function Bound(mosaic: MosaicId): Attestation -> bool {
    (a: Attestation) => mosaic(a.pubkeyHex) == a.mosaicRoot
  }

  /** Every attestation of p is one of the pool's, in whatever order and number. */
  ghost predicate DrawnFrom(p: seq<Attestation>, pool: seq<Attestation>) {
    forall a :: a in p ==> a in pool
  }

  /** Whatever part of the pool a call is given, everybody it counts signed, in that part, with their own key. */
  ghost predicate CountsOnlySigners(q: Query, mosaic: MosaicId) {
    forall p, v :: DrawnFrom(p, q.attestations) && v in Accepted(q.(attestations := p)) ==>
                     Signed(p, q.sigOk, mosaic, v, q.constitutionalHash)
  }

  /** Sealed, for this hash and verifying: what a call counts unless its validator is flagged. */
  predicate Eligible(q: Query, a: Attestation) {
    q.validatorSet.Contains(a.mosaicRoot) && a.constitutionalHash == q.constitutionalHash && a.Verify(q.sigOk)
  }

  /**
   * Verification uses the key an attestation carries and does not derive the name from it. Calls over a pool and
   * all its parts count only validators that signed with their own key if and only if every eligible attestation
   * of the pool carries the key of its name.
   */
  lemma CountedDidSignIff(q: Query, mosaic: MosaicId)
    ensures CountsOnlySigners(q, mosaic) <==>
            forall a :: a in q.attestations && Eligible(q, a) ==> mosaic(a.pubkeyHex) == a.mosaicRoot
  {
    if CountsOnlySigners(q, mosaic) {
      forall a | a in q.attestations && Eligible(q, a)
        ensures mosaic(a.pubkeyHex) == a.mosaicRoot
      {
        AloneIsCounted(q, a);
        assert DrawnFrom([a], q.attestations);
        assert Signed([a], q.sigOk, mosaic, a.mosaicRoot, q.constitutionalHash);
      }
    }
    if forall a :: a in q.attestations && Eligible(q, a) ==> mosaic(a.pubkeyHex) == a.mosaicRoot {
      forall p, v | DrawnFrom(p, q.attestations) && v in Accepted(q.(attestations := p))
        ensures Signed(p, q.sigOk, mosaic, v, q.constitutionalHash)
      {
        AcceptedExact(q.(attestations := p));
      }
    }
  }

  /** An eligible attestation is counted when it comes alone. */
  lemma AloneIsCounted(q: Query, a: Attestation)
    requires Eligible(q, a)
    ensures a.mosaicRoot in Accepted(q.(attestations := [a]))
  {
    AcceptedExact(q.(attestations := [a]));
    assert a in [a] && !Equivocates([a], a.mosaicRoot);
  }

  /** For one pool alone: those who did not sign are the counted that dropping foreign keys leaves unsupported. */
  lemma CountedSignedIffKeptByFilter(q: Query, mosaic: MosaicId)
    ensures (forall v :: v in Accepted(q) ==> Signed(q.attestations, q.sigOk, mosaic, v, q.constitutionalHash)) <==>
            Accepted(q) <= Accepted(q.(attestations := Filter(q.attestations, Bound(mosaic))))
  {
    var p := q.(attestations := Filter(q.attestations, Bound(mosaic)));
    forall v | v in Accepted(q)
      ensures v in Accepted(p) <==> Signed(q.attestations, q.sigOk, mosaic, v, q.constitutionalHash)
    {
      CountedDidSign(q, p, mosaic, v);
    }
  }

  lemma CountedDidSign(q: Query, p: Query, mosaic: MosaicId, v: string)
    requires p == q.(attestations := Filter(q.attestations, Bound(mosaic))) && v in Accepted(q)
    ensures v in Accepted(p) <==> Signed(q.attestations, q.sigOk, mosaic, v, q.constitutionalHash)
  {
    AcceptedExact(q);
    AcceptedExact(p);
    forall a
      ensures a in p.attestations <==> a in q.attestations && mosaic(a.pubkeyHex) == a.mosaicRoot
    {
      FilterExact(q.attestations, Bound(mosaic), a);
    }
    assert !Equivocates(p.attestations, v);
  }

  /** If every attestation carries its own name's key, everybody counted signed. */
  lemma BoundKeysMeanSigned(q: Query, mosaic: MosaicId, v: string)
    requires KeysBound(q.attestations, mosaic) && v in Accepted(q)
    ensures Signed(q.attestations, q.sigOk, mosaic, v, q.constitutionalHash)
  {
    AcceptedExact(q);
  }

  /** A single key may carry the whole count: no two counted names need different keys. */
  lemma OneKeyMayCarryTheCount(ring: Keyring, key: string, validators: seq<string>, hash: string)
    requires ring.Works() && forall v :: ring.keyOf(v) == key
    ensures var q := FullTurnout(ring, validators, hash);
            && Accepted(q) == Elements(validators)
            && forall a :: a in q.attestations ==> a.pubkeyHex == key
  {
    FullTurnoutCountsEverybody(ring, validators, hash);
    var q := FullTurnout(ring, validators, hash);
    forall a | a in q.attestations
      ensures a.pubkeyHex == key
    {
      VotesExact(ring, validators, hash, 0, a);
    }
  }

  /** One key that signs under two sealed names makes a call final in which somebody counted never signed. */
  lemma OneKeyCountsANonSigner(ring: Keyring, v1: string, v2: string, hash: string, mosaic: MosaicId)
    requires ring.Works() && v1 != v2 && ring.keyOf(v1) == ring.keyOf(v2)
    ensures var q := FullTurnout(ring, [v1, v2], hash);
            Final(q) && exists v :: v in Accepted(q) && !Signed(q.attestations, q.sigOk, mosaic, v, hash)
  {
    var q := FullTurnout(ring, [v1, v2], hash);
    FullTurnoutCountsEverybody(ring, [v1, v2], hash);
    AcceptedExact(q);
    assert Accepted(q) == {v1, v2};
    var v := if mosaic(ring.keyOf(v1)) == v1 then v2 else v1;
    forall a | a in q.attestations && a.mosaicRoot == v
      ensures mosaic(a.pubkeyHex) != v
    {
      VotesExact(ring, [v1, v2], hash, 0, a);
    }
    assert v in Accepted(q) && !Signed(q.attestations, q.sigOk, mosaic, v, hash);
  }

  // ---- who is flagged ----------------------------------------------------------------------------

  function Verified(sigOk: SignatureCheck): Attestation -> bool {
    (a: Attestation) => a.Verify(sigOk)
  }

  /** Two verifying attestations of v in one epoch, for different hashes. */
  ghost predicate ProvenEquivocation(pool: seq<Attestation>, sigOk: SignatureCheck, v: string) {
    exists a, b ::
      && a in pool && b in pool && a.Verify(sigOk) && b.Verify(sigOk)
      && a.mosaicRoot == v && b.mosaicRoot == v
      && a.epoch == b.epoch && a.constitutionalHash != b.constitutionalHash
  }

  lemma ProvenIsEquivocationAmongVerified(pool: seq<Attestation>, sigOk: SignatureCheck, v: string)
    ensures ProvenEquivocation(pool, sigOk, v) <==> Equivocates(Filter(pool, Verified(sigOk)), v)
  {
    var verified := Filter(pool, Verified(sigOk));
    forall a
      ensures a in verified <==> a in pool && a.Verify(sigOk)
    {
      FilterExact(pool, Verified(sigOk), a);
    }
  }

  /** One validator, one epoch, two hashes. */
  predicate Conflict(a: Attestation, b: Attestation) {
    a.mosaicRoot == b.mosaicRoot && a.epoch == b.epoch && a.constitutionalHash != b.constitutionalHash
  }

  /** Whatever part of the pool is examined, everybody reported has two conflicting, verifying attestations in it. */
  ghost predicate ReportsAreProven(pool: seq<Attestation>, sigOk: SignatureCheck) {
    forall p, v :: DrawnFrom(p, pool) && v in EquivocatorsOf(p) ==> ProvenEquivocation(p, sigOk, v)
  }

  /**
   * Equivocation is detected before signatures are checked. The reports over a pool and all its parts are proven
   * if and only if every attestation of the pool that conflicts with another verifies.
   */
  lemma ReportIsProvenIff(pool: seq<Attestation>, sigOk: SignatureCheck)
    ensures ReportsAreProven(pool, sigOk) <==>
            forall a, b :: a in pool && b in pool && Conflict(a, b) ==> a.Verify(sigOk)
  {
    if ReportsAreProven(pool, sigOk) {
      forall a, b | a in pool && b in pool && Conflict(a, b)
        ensures a.Verify(sigOk)
      {
        assert DrawnFrom([a, b], pool);
        PairIsReported(a, b);
        assert ProvenEquivocation([a, b], sigOk, a.mosaicRoot);
      }
    }
    if forall a, b :: a in pool && b in pool && Conflict(a, b) ==> a.Verify(sigOk) {
      forall p: seq<Attestation>, v | DrawnFrom(p, pool) && v in EquivocatorsOf(p)
        ensures ProvenEquivocation(p, sigOk, v)
      {
        EquivocatorsExact(p);
        var a, b :| a in p && b in p && a.mosaicRoot == v && b.mosaicRoot == v
                    && a.epoch == b.epoch && a.constitutionalHash != b.constitutionalHash;
        assert Conflict(a, b) && Conflict(b, a);
      }
    }
  }

  lemma PairIsReported(a: Attestation, b: Attestation)
    requires Conflict(a, b)
    ensures a.mosaicRoot in EquivocatorsOf([a, b])
  {
    EquivocatorsExact([a, b]);
    assert a in [a, b] && b in [a, b];
    assert Equivocates([a, b], a.mosaicRoot);
  }

  /** An attestation that does not verify gets its validator reported without proof. */
  lemma UnverifiedConflictIsReported(a: Attestation, b: Attestation, sigOk: SignatureCheck)
    requires Conflict(a, b) && !b.Verify(sigOk)
    ensures a.mosaicRoot in EquivocatorsOf([a, b]) && !ProvenEquivocation([a, b], sigOk, a.mosaicRoot)
  {
    PairIsReported(a, b);
  }

  /** For one pool alone: its report is proven exactly when dropping what does not verify leaves it as it is. */
  lemma ReportProvenIffKeptByFilter(pool: seq<Attestation>, sigOk: SignatureCheck)
    ensures (forall v :: v in EquivocatorsOf(pool) ==> ProvenEquivocation(pool, sigOk, v)) <==>
            EquivocatorsOf(Filter(pool, Verified(sigOk))) == EquivocatorsOf(pool)
  {
    var verified := Filter(pool, Verified(sigOk));
    EquivocatorsExact(pool);
    EquivocatorsExact(verified);
    forall v
      ensures ProvenEquivocation(pool, sigOk, v) <==> v in EquivocatorsOf(verified)
      ensures ProvenEquivocation(pool, sigOk, v) ==> v in EquivocatorsOf(pool)
    {
      ProvenIsEquivocationAmongVerified(pool, sigOk, v);
    }
    if forall v :: v in EquivocatorsOf(pool) ==> ProvenEquivocation(pool, sigOk, v) {
      SameEquivocatorsSameReport(verified, pool);
    }
  }

  lemma SameEquivocatorsSameReport(p: seq<Attestation>, q: seq<Attestation>)
    requires forall v :: v in EquivocatorsOf(p) <==> v in EquivocatorsOf(q)
    ensures EquivocatorsOf(p) == EquivocatorsOf(q)
  {
    var fp, fq := FlaggedRoots(p, p), FlaggedRoots(q, q);
    SortedSetIsCanonical(fp, fq);
    SortedSetIsCanonical(fq, fp);
    forall v
      ensures v in Elements(fp) <==> v in Elements(fq)
    {
      assert v in EquivocatorsOf(p) <==> v in Elements(EquivocatorsOf(p));
      assert v in EquivocatorsOf(q) <==> v in Elements(EquivocatorsOf(q));
    }
  }

  /** One conflicting attestation un-counts a counted validator, whether or not it verifies under any key. */
  lemma UnverifiedConflictUncounts(q: Query, a: Attestation, conflict: Attestation)
    requires a in q.attestations && Accepts(q, a)
    requires conflict.mosaicRoot == a.mosaicRoot && conflict.epoch == a.epoch
    requires conflict.constitutionalHash != a.constitutionalHash
    ensures a.mosaicRoot in Accepted(q)
    ensures a.mosaicRoot !in Accepted(q.(attestations := q.attestations + [conflict]))
  {
    var p := q.(attestations := q.attestations + [conflict]);
    AcceptedExact(q);
    AcceptedExact(p);
    assert a in p.attestations && conflict in p.attestations;
    assert Equivocates(p.attestations, a.mosaicRoot);
  }
}
