/** Constitutional finality: who is counted, who is excluded, and what a quorum is (ugk/csh.py). */
module Finality {
  import opened Collections
  import opened Ordering

  /** The five fields an attestation's signature commits to. */
  datatype SigPayload = SigPayload(
    constitutionalHash: string,
    epoch: int,
    mosaicRoot: string,
    phaseCode: string,
    timestamp: string)

  /** Ed25519 verification (section 5.1 of RFC 8032), as an arbitrary predicate on payload, signature and key. */
  type SignatureCheck = (SigPayload, string, string) -> bool

  datatype Attestation = Attestation(
    mosaicRoot: string,
    constitutionalHash: string,
    phaseCode: string,
    epoch: int,
    timestamp: string,
    signature: string,
    pubkeyHex: string)
  {
    function Payload(): SigPayload {
      SigPayload(constitutionalHash, epoch, mosaicRoot, phaseCode, timestamp)
    }

    predicate Verify(sigOk: SignatureCheck) {
      sigOk(Payload(), signature, pubkeyHex)
    }
  }

  datatype ValidatorSet = ValidatorSet(validators: seq<string>, nValidators: int) {
    predicate Contains(mosaicRoot: string) {
      mosaicRoot in validators
    }

    /** The declared count covers every distinct validator. */
    predicate Counted() {
      |Elements(validators)| <= nValidators
    }

    /** The declared count is the number of distinct validators. */
    predicate Exact() {
      |Elements(validators)| == nValidators
    }
  }

  /** What one call of achieve_finality is asked about. */
  datatype Query = Query(
    attestations: seq<Attestation>,
    validatorSet: ValidatorSet,
    constitutionalHash: string,
    sigOk: SignatureCheck)

  /** The finality artifact. */
  datatype MCIR = MCIR(
    constitutionalHash: string,
    validAttestations: seq<Attestation>,
    invalidAttestations: seq<Attestation>,
    equivocators: seq<string>,
    quorumThreshold: int,
    quorumAchieved: bool,
    finalityHash: string)

  // ---- sealing and quorum ------------------------------------------------------------

  /** Sorts and counts the list; duplicates stay and are counted. */
  function SealValidatorSet(validators: seq<string>): (vs: ValidatorSet)
    ensures SortedBy(StringLeq, vs.validators) && multiset(vs.validators) == multiset(validators)
    ensures vs.nValidators == |validators| && vs.Counted()
    ensures vs.Exact() <==> NoDuplicates(validators)
    ensures forall v :: vs.Contains(v) <==> v in validators
  {
    StringOrder();
    SortSorts(StringLeq, validators);
    SortElements(StringLeq, validators);
    ElementsCardinality(validators);
    var sorted := SortStrings(validators);
    assert forall v :: v in sorted <==> v in Elements(sorted);
    ValidatorSet(sorted, |sorted|)
  }

  /** The least t with 3t >= 2n + 1, that is ceil((2n+1)/3), and never below one. */
  function QuorumThreshold(nValidators: int): (t: int)
    ensures nValidators >= 0 ==> 3 * (t - 1) < 2 * nValidators + 1 <= 3 * t
    ensures nValidators <= 0 ==> t == 1
  {
    Max(1, (2 * nValidators + 1 + 2) / 3)
  }

  // ---- equivocation ------------------------------------------------------------------

  /** v attested two different hashes in one epoch. */
  ghost predicate Equivocates(attestations: seq<Attestation>, v: string) {
    exists a, b ::
      && a in attestations && b in attestations
      && a.mosaicRoot == v && b.mosaicRoot == v
      && a.epoch == b.epoch && a.constitutionalHash != b.constitutionalHash
  }

  function HashesFor(attestations: seq<Attestation>, root: string, epoch: int): set<string> {
    set a | a in attestations && a.mosaicRoot == root && a.epoch == epoch :: a.constitutionalHash
  }

  lemma ManyHashesIsEquivocation(attestations: seq<Attestation>, root: string, epoch: int)
    ensures |HashesFor(attestations, root, epoch)| > 1 ==> Equivocates(attestations, root)
    ensures forall a, b ::
              && a in attestations && b in attestations
              && a.mosaicRoot == root && b.mosaicRoot == root && a.epoch == epoch && b.epoch == epoch
              && a.constitutionalHash != b.constitutionalHash
              ==> |HashesFor(attestations, root, epoch)| > 1
  {
    var hashes := HashesFor(attestations, root, epoch);
    TwoMembers(hashes);
    if |hashes| > 1 {
      var x, y :| x in hashes && y in hashes && x != y;
      var a :| a in attestations && a.mosaicRoot == root && a.epoch == epoch && a.constitutionalHash == x;
      var b :| b in attestations && b.mosaicRoot == root && b.epoch == epoch && b.constitutionalHash == y;
    }
    forall a, b |
      && a in attestations && b in attestations
      && a.mosaicRoot == root && b.mosaicRoot == root && a.epoch == epoch && b.epoch == epoch
      && a.constitutionalHash != b.constitutionalHash
      ensures |hashes| > 1
    {
      assert a.constitutionalHash in hashes && b.constitutionalHash in hashes;
    }
  }

  /** The roots of the equivocating attestations, in input order. */
  ghost function FlaggedRoots(attestations: seq<Attestation>, pool: seq<Attestation>): (roots: seq<string>)
    ensures forall v :: v in roots <==> (exists a :: a in attestations && a.mosaicRoot == v) && Equivocates(pool, v)
  {
    if attestations == [] then []
    else
      var a := attestations[|attestations| - 1];
      var init := attestations[..|attestations| - 1];
      assert attestations == init + [a];
      FlaggedRoots(init, pool) + if Equivocates(pool, a.mosaicRoot) then [a.mosaicRoot] else []
  }

  /** The sorted list of equivocating roots, without repetition. */
  ghost function EquivocatorsOf(attestations: seq<Attestation>): seq<string> {
    SortedSet(FlaggedRoots(attestations, attestations))
  }

  lemma EquivocatorsExact(attestations: seq<Attestation>)
    ensures forall v :: v in EquivocatorsOf(attestations) <==> Equivocates(attestations, v)
  {
    var flagged := FlaggedRoots(attestations, attestations);
    SortedSetIsCanonical(flagged, flagged);
    forall v
      ensures v in EquivocatorsOf(attestations) <==> Equivocates(attestations, v)
    {
      assert v in EquivocatorsOf(attestations) <==> v in Elements(flagged);
    }
  }

  /** Groups the attested hashes by validator and epoch. */
  method GroupByValidator(attestations: seq<Attestation>) returns (byValidator: map<(string, int), set<string>>)
    ensures Grouped(attestations, byValidator)
  {
    byValidator := map[];
    for i := 0 to |attestations|
      invariant Grouped(attestations[..i], byValidator)
    {
      var a := attestations[i];
      var key := (a.mosaicRoot, a.epoch);
      var hashes := if key in byValidator then byValidator[key] else {};
      assert attestations[..i + 1] == attestations[..i] + [a];
      GroupedStep(attestations[..i], a, byValidator);
      byValidator := byValidator[key := hashes + {a.constitutionalHash}];
    }
    assert attestations[..|attestations|] == attestations;
  }

  ghost predicate Grouped(attestations: seq<Attestation>, byValidator: map<(string, int), set<string>>) {
    && (forall k :: k in byValidator <==> HashesFor(attestations, k.0, k.1) != {})
    && (forall k :: k in byValidator ==> byValidator[k] == HashesFor(attestations, k.0, k.1))
  }

  lemma GroupedStep(attestations: seq<Attestation>, a: Attestation, byValidator: map<(string, int), set<string>>)
    requires Grouped(attestations, byValidator)
    ensures var key := (a.mosaicRoot, a.epoch);
            var hashes := if key in byValidator then byValidator[key] else {};
            Grouped(attestations + [a], byValidator[key := hashes + {a.constitutionalHash}])
  {
    forall k: (string, int)
      ensures HashesFor(attestations + [a], k.0, k.1) ==
              HashesFor(attestations, k.0, k.1) + if k == (a.mosaicRoot, a.epoch) then {a.constitutionalHash} else {}
    {
      HashesForAppend(attestations, a, k.0, k.1);
    }
  }

  method DetectEquivocation(attestations: seq<Attestation>) returns (equivocators: seq<string>)
    ensures SortedBy(StringLeq, equivocators) && NoDuplicates(equivocators)
    ensures forall v :: v in equivocators <==> Equivocates(attestations, v)
    ensures equivocators == EquivocatorsOf(attestations)
  {
    var byValidator := GroupByValidator(attestations);
    var flagged: seq<string> := [];
    var pending := byValidator.Keys;
    while pending != {}
      invariant pending <= byValidator.Keys
      invariant forall v :: v in flagged <==>
                            exists k :: k in byValidator.Keys - pending && k.0 == v && |byValidator[k]| > 1
    {
      var key :| key in pending;
      pending := pending - {key};
      assert byValidator.Keys - pending == (byValidator.Keys - (pending + {key})) + {key};
      if |byValidator[key]| > 1 {
        flagged := flagged + [key.0];
      }
    }
    FlaggedIsCanonical(attestations, byValidator, flagged);
    SortedSetIsSorted(flagged);
    equivocators := SortedSet(flagged);
  }

  lemma FlaggedIsCanonical(attestations: seq<Attestation>, byValidator: map<(string, int), set<string>>,
                           flagged: seq<string>)
    requires Grouped(attestations, byValidator)
    requires forall v :: v in flagged <==> exists k :: k in byValidator.Keys && k.0 == v && |byValidator[k]| > 1
    ensures SortedSet(flagged) == EquivocatorsOf(attestations)
    ensures forall v :: v in SortedSet(flagged) <==> Equivocates(attestations, v)
  {
    var spec := FlaggedRoots(attestations, attestations);
    forall v
      ensures v in flagged <==> v in spec
    {
      FlaggedExactly(attestations, byValidator, v);
    }
    assert Elements(flagged) == Elements(spec);
    SortedSetIsCanonical(flagged, spec);
    EquivocatorsExact(attestations);
  }

  lemma HashesForAppend(attestations: seq<Attestation>, a: Attestation, root: string, epoch: int)
    ensures HashesFor(attestations + [a], root, epoch) ==
            HashesFor(attestations, root, epoch)
            + if root == a.mosaicRoot && epoch == a.epoch then {a.constitutionalHash} else {}
  {
    var longer := attestations + [a];
    assert forall x :: x in longer <==> x in attestations || x == a;
    forall h
      ensures h in HashesFor(longer, root, epoch) <==>
              h in HashesFor(attestations, root, epoch)
              || (root == a.mosaicRoot && epoch == a.epoch && h == a.constitutionalHash)
    {
      if root == a.mosaicRoot && epoch == a.epoch && h == a.constitutionalHash {
        assert a in longer;
      }
    }
  }

  lemma FlaggedExactly(attestations: seq<Attestation>, byValidator: map<(string, int), set<string>>, v: string)
    requires Grouped(attestations, byValidator)
    ensures (exists k :: k in byValidator.Keys && k.0 == v && |byValidator[k]| > 1) <==> Equivocates(attestations, v)
  {
    if k :| k in byValidator.Keys && k.0 == v && |byValidator[k]| > 1 {
      ManyHashesIsEquivocation(attestations, v, k.1);
    }
    if Equivocates(attestations, v) {
      var a, b :|
        && a in attestations && b in attestations
        && a.mosaicRoot == v && b.mosaicRoot == v
        && a.epoch == b.epoch && a.constitutionalHash != b.constitutionalHash;
      ManyHashesIsEquivocation(attestations, v, a.epoch);
      assert HashesFor(attestations, v, a.epoch) != {};
      var key := (v, a.epoch);
      assert key in byValidator && |byValidator[key]| > 1;
    }
  }

  // ---- the filtering loop --------------------------------------------------------------

  /** a survives all four filters of the call q. */
  ghost predicate Accepts(q: Query, a: Attestation) {
    && !Equivocates(q.attestations, a.mosaicRoot)
    && q.validatorSet.Contains(a.mosaicRoot)
    && a.constitutionalHash == q.constitutionalHash
    && a.Verify(q.sigOk)
  }

  function Roots(attestations: seq<Attestation>): set<string> {
    set a | a in attestations :: a.mosaicRoot
  }

  /** The accepted attestations of a prefix, keeping the first one of each validator. */
  ghost function ValidOf(q: Query, prefix: seq<Attestation>): seq<Attestation> {
    if prefix == [] then []
    else
      var a, rest := prefix[|prefix| - 1], ValidOf(q, prefix[..|prefix| - 1]);
      if Accepts(q, a) && a.mosaicRoot !in Roots(rest) then rest + [a] else rest
  }

  lemma ValidSnoc(q: Query, init: seq<Attestation>, a: Attestation)
    ensures var rest := ValidOf(q, init);
            ValidOf(q, init + [a]) == if Accepts(q, a) && a.mosaicRoot !in Roots(rest) then rest + [a] else rest
  {
    assert (init + [a])[..|init|] == init;
  }

  /** The rejected attestations of a prefix, in order. */
  ghost function InvalidOf(q: Query, prefix: seq<Attestation>): seq<Attestation> {
    if prefix == [] then []
    else
      var a, rest := prefix[|prefix| - 1], InvalidOf(q, prefix[..|prefix| - 1]);
      if Accepts(q, a) then rest else rest + [a]
  }

  ghost function Valid(q: Query): seq<Attestation> {
    ValidOf(q, q.attestations)
  }

  ghost predicate Final(q: Query) {
    |Valid(q)| >= QuorumThreshold(q.validatorSet.nValidators)
  }

  function Signatures(attestations: seq<Attestation>): (s: seq<string>)
    ensures |s| == |attestations|
    ensures forall i :: 0 <= i < |s| ==> s[i] == attestations[i].signature
  {
    seq(|attestations|, i requires 0 <= i < |attestations| => attestations[i].signature)
  }

  /** The digest of the sorted accepted signatures, or empty below the quorum. */
  ghost function FinalityHash(q: Query, digest: seq<string> -> string): string {
    if Final(q) then digest(SortStrings(Signatures(Valid(q)))) else ""
  }

  ghost function FinalityOf(q: Query, digest: seq<string> -> string): MCIR {
    MCIR(q.constitutionalHash, Valid(q), InvalidOf(q, q.attestations), EquivocatorsOf(q.attestations),
         QuorumThreshold(q.validatorSet.nValidators), Final(q), FinalityHash(q, digest))
  }

  /** The positions of the attestations that survive the filters, and of the first one of each validator. */
  ghost function Qualifying(q: Query): set<int> {
    set i | 0 <= i < |q.attestations| && Accepts(q, q.attestations[i])
  }

  ghost function FirstQualifying(q: Query): set<int> {
    set i | i in Qualifying(q) && forall j :: j in Qualifying(q) && j < i ==>
                                                q.attestations[j].mosaicRoot != q.attestations[i].mosaicRoot
  }

  lemma {:induction false} RootsOfValid(q: Query, prefix: seq<Attestation>, v: string)
    ensures v in Roots(ValidOf(q, prefix)) <==>
            exists i :: 0 <= i < |prefix| && Accepts(q, prefix[i]) && prefix[i].mosaicRoot == v
  {
    if prefix != [] {
      var init, a := prefix[..|prefix| - 1], prefix[|prefix| - 1];
      assert prefix == init + [a];
      RootsOfValid(q, init, v);
      RootsOfValid(q, init, a.mosaicRoot);
      ValidSnoc(q, init, a);
      RootsOfAppend(ValidOf(q, init), a);
      if i :| 0 <= i < |init| && Accepts(q, init[i]) && init[i].mosaicRoot == v {
        assert prefix[i] == init[i];
      }
    }
  }

  /** The kept attestations are those at the first qualifying positions, the rejected ones those at the others. */
  lemma {:induction false} KeptByPosition(q: Query, n: nat)
    requires n <= |q.attestations|
    ensures var prefix := q.attestations[..n];
            && ValidOf(q, prefix) == Picked(prefix, FirstQualifying(q))
            && InvalidOf(q, prefix) == Dropped(prefix, Qualifying(q))
  {
    if n > 0 {
      var prefix, init, a := q.attestations[..n], q.attestations[..n - 1], q.attestations[n - 1];
      assert prefix[..n - 1] == init && prefix == init + [a];
      KeptByPosition(q, n - 1);
      RootsOfValid(q, init, a.mosaicRoot);
      assert n - 1 in FirstQualifying(q) <==> Accepts(q, a) && a.mosaicRoot !in Roots(ValidOf(q, init)) by {
        if Accepts(q, a) && a.mosaicRoot in Roots(ValidOf(q, init)) {
          var i :| 0 <= i < |init| && Accepts(q, init[i]) && init[i].mosaicRoot == a.mosaicRoot;
          assert i in Qualifying(q) && q.attestations[i] == init[i];
        }
        forall j | j in Qualifying(q) && j < n - 1
          ensures q.attestations[j].mosaicRoot == a.mosaicRoot ==> a.mosaicRoot in Roots(ValidOf(q, init))
        {
          assert init[j] == q.attestations[j];
        }
      }
    }
  }

  method AchieveFinality(attestations: seq<Attestation>, validatorSet: ValidatorSet, constitutionalHash: string,
                         sigOk: SignatureCheck, digest: seq<string> -> string)
    returns (mcir: MCIR)
    ensures mcir == FinalityOf(Query(attestations, validatorSet, constitutionalHash, sigOk), digest)
    ensures var qualifying := set i |
              && 0 <= i < |attestations|
              && var a := attestations[i];
                 && a.mosaicRoot in validatorSet.validators
                 && !Equivocates(attestations, a.mosaicRoot)
                 && a.constitutionalHash == constitutionalHash
                 && sigOk(SigPayload(
                            constitutionalHash := a.constitutionalHash,
                            epoch := a.epoch,
                            mosaicRoot := a.mosaicRoot,
                            phaseCode := a.phaseCode,
                            timestamp := a.timestamp),
                          a.signature, a.pubkeyHex);
            var first := set i | i in qualifying && forall j :: j in qualifying && j < i ==>
                                   attestations[j].mosaicRoot != attestations[i].mosaicRoot;
            && mcir.validAttestations == Picked(attestations, first)
            && mcir.invalidAttestations == Dropped(attestations, qualifying)
    ensures SortedBy(StringLeq, mcir.equivocators) && NoDuplicates(mcir.equivocators)
    ensures forall v :: v in mcir.equivocators <==> Equivocates(attestations, v)
    ensures var n, t := validatorSet.nValidators, mcir.quorumThreshold;
            if n <= 0 then t == 1 else 3 * (t - 1) < 2 * n + 1 <= 3 * t
    ensures mcir.quorumAchieved <==> |mcir.validAttestations| >= mcir.quorumThreshold
    ensures mcir.constitutionalHash == constitutionalHash
    ensures !mcir.quorumAchieved ==> mcir.finalityHash == ""
    ensures mcir.quorumAchieved ==> exists unsorted: seq<string>, sorted: seq<string> ::
              && |unsorted| == |mcir.validAttestations|
              && (forall i :: 0 <= i < |unsorted| ==> unsorted[i] == mcir.validAttestations[i].signature)
              && SortedBy(StringLeq, sorted) && multiset(sorted) == multiset(unsorted)
              && mcir.finalityHash == digest(sorted)
  {
    ghost var q := Query(attestations, validatorSet, constitutionalHash, sigOk);
    var equivocators := DetectEquivocation(attestations);
    var valid: seq<Attestation>, invalid: seq<Attestation> := [], [];
    var seenValidators: set<string> := {};
    for i := 0 to |attestations|
      invariant valid == ValidOf(q, attestations[..i])
      invariant invalid == InvalidOf(q, attestations[..i])
      invariant seenValidators == Roots(valid)
    {
      var a := attestations[i];
      assert attestations[..i + 1][..i] == attestations[..i];
      if a.mosaicRoot in equivocators {
        invalid := invalid + [a];
        continue;
      }
      if !validatorSet.Contains(a.mosaicRoot) {
        invalid := invalid + [a];
        continue;
      }
      if a.constitutionalHash != constitutionalHash {
        invalid := invalid + [a];
        continue;
      }
      if !a.Verify(sigOk) {
        invalid := invalid + [a];
        continue;
      }
      if a.mosaicRoot in seenValidators {
        continue;
      }
      RootsOfAppend(valid, a);
      seenValidators := seenValidators + {a.mosaicRoot};
      valid := valid + [a];
    }
    assert attestations[..|attestations|] == attestations;
    var threshold := QuorumThreshold(validatorSet.nValidators);
    var quorumOk := |valid| >= threshold;
    var finalityHash := if quorumOk then digest(SortStrings(Signatures(valid))) else "";
    mcir := MCIR(constitutionalHash, valid, invalid, equivocators, threshold, quorumOk, finalityHash);
    ArtifactExact(q, digest);
  }

  lemma ArtifactExact(q: Query, digest: seq<string> -> string)
    ensures var mcir := FinalityOf(q, digest);
            var qualifying := set i |
              && 0 <= i < |q.attestations|
              && var a := q.attestations[i];
                 && a.mosaicRoot in q.validatorSet.validators
                 && !Equivocates(q.attestations, a.mosaicRoot)
                 && a.constitutionalHash == q.constitutionalHash
                 && q.sigOk(SigPayload(
                              constitutionalHash := a.constitutionalHash,
                              epoch := a.epoch,
                              mosaicRoot := a.mosaicRoot,
                              phaseCode := a.phaseCode,
                              timestamp := a.timestamp),
                            a.signature, a.pubkeyHex);
            var first := set i | i in qualifying && forall j :: j in qualifying && j < i ==>
                                   q.attestations[j].mosaicRoot != q.attestations[i].mosaicRoot;
            && mcir.validAttestations == Picked(q.attestations, first)
            && mcir.invalidAttestations == Dropped(q.attestations, qualifying)
    ensures var mcir := FinalityOf(q, digest);
            mcir.quorumAchieved ==> exists unsorted: seq<string>, sorted: seq<string> ::
              && |unsorted| == |mcir.validAttestations|
              && (forall i :: 0 <= i < |unsorted| ==> unsorted[i] == mcir.validAttestations[i].signature)
              && SortedBy(StringLeq, sorted) && multiset(sorted) == multiset(unsorted)
              && mcir.finalityHash == digest(sorted)
  {
    ArtifactLists(q);
    var unsorted, sorted := Signatures(Valid(q)), SortStrings(Signatures(Valid(q)));
    StringOrder();
    SortSorts(StringLeq, unsorted);
    assert SortedBy(StringLeq, sorted) && multiset(sorted) == multiset(unsorted);
  }

  lemma ArtifactLists(q: Query)
    ensures var qualifying := set i |
              && 0 <= i < |q.attestations|
              && var a := q.attestations[i];
                 && a.mosaicRoot in q.validatorSet.validators
                 && !Equivocates(q.attestations, a.mosaicRoot)
                 && a.constitutionalHash == q.constitutionalHash
                 && q.sigOk(SigPayload(
                              constitutionalHash := a.constitutionalHash,
                              epoch := a.epoch,
                              mosaicRoot := a.mosaicRoot,
                              phaseCode := a.phaseCode,
                              timestamp := a.timestamp),
                            a.signature, a.pubkeyHex);
            var first := set i | i in qualifying && forall j :: j in qualifying && j < i ==>
                                   q.attestations[j].mosaicRoot != q.attestations[i].mosaicRoot;
            && Valid(q) == Picked(q.attestations, first)
            && InvalidOf(q, q.attestations) == Dropped(q.attestations, qualifying)
  {
    KeptByPosition(q, |q.attestations|);
    assert q.attestations[..|q.attestations|] == q.attestations;
    var qualifying := set i |
      && 0 <= i < |q.attestations|
      && var a := q.attestations[i];
         && a.mosaicRoot in q.validatorSet.validators
         && !Equivocates(q.attestations, a.mosaicRoot)
         && a.constitutionalHash == q.constitutionalHash
         && q.sigOk(SigPayload(a.constitutionalHash, a.epoch, a.mosaicRoot, a.phaseCode, a.timestamp),
                    a.signature, a.pubkeyHex);
    assert qualifying == Qualifying(q);
  }

  lemma RootsOfAppend(attestations: seq<Attestation>, a: Attestation)
    ensures Roots(attestations + [a]) == Roots(attestations) + {a.mosaicRoot}
  {
    assert forall x :: x in attestations + [a] <==> x in attestations || x == a;
    assert a in attestations + [a];
  }
}
