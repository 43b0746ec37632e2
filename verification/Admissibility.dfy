/** Admissibility of one record, stated as the conditions of AMD-S-03 rather than as a sequence of checks. */
module Admissibility {
  import opened Collections
  import opened Ordering
  import opened Amendment
  import opened Ledger

  /** Conditions 1 and 2: the record says truly where the frame was, and the frame moved exactly as it commits. */
  predicate FramesMatch(r: AmendmentRecord, x: Context) {
    && x.prior.law == r.priorLawHash
    && x.successor == After(x.prior, r)
    && (forall leg: Leg :: CommittedSuccessor(r, leg) != "" ==> CommittedPrior(r, leg) == LegOf(x.prior, leg))
  }

  /** Condition 3: keys[i] is the first authorized key the record names, it is of the right era, and it signed. */
  ghost predicate SignedBy(c: Crypto, r: AmendmentRecord, x: Context, i: nat) {
    var keys := KeysFrom(c, x.governor, x.succession);
    && i < |keys| && c.mosaic(keys[i]) == r.authority
    && (forall j :: 0 <= j < i ==> c.mosaic(keys[j]) != r.authority)
    && (x.historical || keys[i] == keys[|keys| - 1])
    && c.verify(keys[i], AmendmentMessage(SignedPayload(r)), r.signature)
  }

  /** Condition 4: the record continues the lineage and arrives somewhere new. */
  ghost predicate ContinuesLineage(r: AmendmentRecord, x: Context) {
    && (x.priorSuccessor.PriorFrame? ==> x.priorSuccessor.frame == x.prior)
    && (x.priorSuccessor.PriorLaw? ==> x.priorSuccessor.law == r.priorLawHash)
    && (if exists f :: FrameEntry(f) in x.existing
        then FrameEntry(x.successor) !in x.existing
        else LawEntry(r.successorLawHash) !in x.existing)
    && (r.priorAmendmentHash != "" ==> x.predecessorHash == Some(r.priorAmendmentHash))
  }

  lemma AuthorityIff(c: Crypto, r: AmendmentRecord, x: Context)
    ensures AuthorityVerdict(c, r, x).Admitted? <==> r.signature != "" && exists i: nat :: SignedBy(c, r, x, i)
  {
    var keys := KeysFrom(c, x.governor, x.succession);
    var i := FirstMatchPosition(keys, Named(c, r.authority));
    if AuthorityVerdict(c, r, x).Admitted? {
      assert SignedBy(c, r, x, i);
    }
    if j: nat :| SignedBy(c, r, x, j) {
      assert i == j;
    }
  }

  lemma LineageIff(r: AmendmentRecord, x: Context)
    ensures LineageVerdict(r, x).Admitted? && RecordChainVerdict(r, x).Admitted? <==> ContinuesLineage(r, x)
  {
    assert (exists e :: e in x.existing && e.FrameEntry?) <==> (exists f :: FrameEntry(f) in x.existing) by {
      if e :| e in x.existing && e.FrameEntry? {
        assert FrameEntry(e.frame) in x.existing;
      }
    }
  }

  lemma FramesIff(r: AmendmentRecord, x: Context)
    ensures FramesMatch(r, x) <==>
            && r.priorLawHash == x.prior.law && r.successorLawHash == x.successor.law
            && LegVerdict(r.priorLegendHash, r.successorLegendHash, x.prior.legend, x.successor.legend).Admitted?
            && LegVerdict(r.priorSchemaHash, r.successorSchemaHash, x.prior.schema, x.successor.schema).Admitted?
  {
    assert CommittedPrior(r, Legend) == r.priorLegendHash && LegOf(x.prior, Legend) == x.prior.legend;
    assert CommittedPrior(r, Schema) == r.priorSchemaHash && LegOf(x.prior, Schema) == x.prior.schema;
    assert CommittedSuccessor(r, Legend) == r.successorLegendHash;
    assert CommittedSuccessor(r, Schema) == r.successorSchemaHash;
  }

  /** A record is admitted exactly when it is intact, matches its frames, is signed in its era and extends its lineage. */
  lemma AdmittedIff(c: Crypto, r: AmendmentRecord, x: Context)
    ensures IsAdmissible(c, r, x).Admitted? <==>
            && (r.amendmentKind == "genesis" || r.amendmentKind == "ordinary")
            && VerifyHash(c, r)
            && FramesMatch(r, x)
            && r.signature != "" && (exists i: nat :: SignedBy(c, r, x, i))
            && ContinuesLineage(r, x)
  {
    FramesIff(r, x);
    AuthorityIff(c, r, x);
    LineageIff(r, x);
  }

  lemma FreshInContext(s: Setup, entries: seq<Entry>, i: nat)
    requires i < |entries|
    ensures FrameEntry(entries[i].successor) !in ContextAt(s, entries, i).existing <==>
            forall k :: 0 <= k < i ==> entries[k].successor != entries[i].successor
    ensures forall e :: e in ContextAt(s, entries, i).existing ==> e.FrameEntry?
  {
    forall k | 0 <= k < i
      ensures FrameEntry(entries[k].successor) in ContextAt(s, entries, i).existing
    {
      assert entries[..i][k] in entries[..i];
    }
  }

  /** keys[i] is the first with the authority's MosaicID. */
  ghost predicate FirstNamed(c: Crypto, keys: seq<Key>, authority: string, i: int) {
    && 0 <= i < |keys| && c.mosaic(keys[i]) == authority
    && forall j :: 0 <= j < i ==> c.mosaic(keys[j]) != authority
  }

  /**
   * What admits record i of a ledger, read off the records, their frames and the authorized keys: it is of a
   * known kind and intact, its frames are where it says, moved only where it commits, an authorized key of its
   * era signed it, it starts where the record before it led, leads where none before it led, and names the hash
   * of the record before it if it names any.
   */
  lemma AdmittedAtIff(s: Setup, entries: seq<Entry>, i: nat)
    requires i < |entries|
    ensures var r, prior, successor := entries[i].record, entries[i].prior, entries[i].successor;
            var keys := KeysFrom(s.crypto, s.governor, s.succession);
            AdmittedAt(s, entries, i) <==>
            && (r.amendmentKind == "genesis" || r.amendmentKind == "ordinary")
            && s.crypto.digest(Body(r)) == r.amendmentHash
            && prior.law == r.priorLawHash && successor.law == r.successorLawHash
            && (if r.successorLegendHash != ""
                then prior.legend == r.priorLegendHash && successor.legend == r.successorLegendHash
                else prior.legend == successor.legend)
            && (if r.successorSchemaHash != ""
                then prior.schema == r.priorSchemaHash && successor.schema == r.successorSchemaHash
                else prior.schema == successor.schema)
            && r.signature != ""
            && (exists k :: && FirstNamed(s.crypto, keys, r.authority, k)
                            && (s.historical(i) || keys[k] == keys[|keys| - 1])
                            && s.crypto.verify(keys[k], AmendmentMessage(SignedPayload(r)), r.signature))
            && (i > 0 ==> prior == entries[i - 1].successor)
            && (forall j :: 0 <= j < i ==> entries[j].successor != successor)
            && (r.priorAmendmentHash != "" ==> i > 0 && r.priorAmendmentHash == entries[i - 1].record.amendmentHash)
  {
    var r, x := entries[i].record, ContextAt(s, entries, i);
    AdmittedIff(s.crypto, r, x);
    FramesReadOff(r, x);
    SignerReadOff(s.crypto, r, x);
    if entries[i].successor.law == r.successorLawHash {
      LineageReadOff(s, entries, i);
    }
  }

  lemma FramesReadOff(r: AmendmentRecord, x: Context)
    ensures FramesMatch(r, x) <==>
            && x.prior.law == r.priorLawHash && x.successor.law == r.successorLawHash
            && (if r.successorLegendHash != ""
                then x.prior.legend == r.priorLegendHash && x.successor.legend == r.successorLegendHash
                else x.prior.legend == x.successor.legend)
            && (if r.successorSchemaHash != ""
                then x.prior.schema == r.priorSchemaHash && x.successor.schema == r.successorSchemaHash
                else x.prior.schema == x.successor.schema)
  {
    FramesIff(r, x);
  }

  lemma SignerReadOff(c: Crypto, r: AmendmentRecord, x: Context)
    ensures var keys := KeysFrom(c, x.governor, x.succession);
            (exists k: nat :: SignedBy(c, r, x, k)) <==>
            (exists k :: && FirstNamed(c, keys, r.authority, k)
                         && (x.historical || keys[k] == keys[|keys| - 1])
                         && c.verify(keys[k], AmendmentMessage(SignedPayload(r)), r.signature))
  {
    var keys := KeysFrom(c, x.governor, x.succession);
    if k: nat :| SignedBy(c, r, x, k) {
      assert FirstNamed(c, keys, r.authority, k);
    }
    if k :| && FirstNamed(c, keys, r.authority, k)
            && (x.historical || keys[k] == keys[|keys| - 1])
            && c.verify(keys[k], AmendmentMessage(SignedPayload(r)), r.signature) {
      assert SignedBy(c, r, x, k);
    }
  }

  lemma LineageReadOff(s: Setup, entries: seq<Entry>, i: nat)
    requires i < |entries| && entries[i].successor.law == entries[i].record.successorLawHash
    ensures ContinuesLineage(entries[i].record, ContextAt(s, entries, i)) <==>
            && (i > 0 ==> entries[i].prior == entries[i - 1].successor)
            && (forall j :: 0 <= j < i ==> entries[j].successor != entries[i].successor)
            && (entries[i].record.priorAmendmentHash != "" ==>
                  i > 0 && entries[i].record.priorAmendmentHash == entries[i - 1].record.amendmentHash)
  {
    FreshInContext(s, entries, i);
  }

  // ---- what a refusal says ---------------------------------------------------------------------

  /** The demand whose failure the reason reports. */
  ghost predicate Meets(c: Crypto, r: AmendmentRecord, x: Context, reason: Reason) {
    var keys := KeysFrom(c, x.governor, x.succession);
    var signer := FirstKeyNamed(c, keys, r.authority);
    match reason
    case BadKind => r.amendmentKind in {"genesis", "ordinary"}
    case BadHash => c.digest(Body(r)) == r.amendmentHash
    case PriorLawMismatch => r.priorLawHash == x.prior.law
    case SuccessorLawMismatch => r.successorLawHash == x.successor.law
    case LegPriorMismatch =>
      && (r.successorLegendHash != "" ==> r.priorLegendHash == x.prior.legend)
      && (r.successorSchemaHash != "" ==> r.priorSchemaHash == x.prior.schema)
    case LegSuccessorMismatch =>
      && (r.successorLegendHash != "" ==> r.successorLegendHash == x.successor.legend)
      && (r.successorSchemaHash != "" ==> r.successorSchemaHash == x.successor.schema)
    case UncommittedLegMoved =>
      && (r.successorLegendHash == "" ==> x.prior.legend == x.successor.legend)
      && (r.successorSchemaHash == "" ==> x.prior.schema == x.successor.schema)
    case Unsigned => r.signature != ""
    case UnknownAuthority => signer.Some?
    case RetiredKey => signer.Some? ==> x.historical || signer.value == keys[|keys| - 1]
    case BadSignature => signer.Some? ==> c.verify(signer.value, AmendmentMessage(SignedPayload(r)), r.signature)
    case LineageBroken =>
      && (x.priorSuccessor.PriorFrame? ==> x.prior == x.priorSuccessor.frame)
      && (x.priorSuccessor.PriorLaw? ==> r.priorLawHash == x.priorSuccessor.law)
    case SuccessorPresent =>
      if exists f :: FrameEntry(f) in x.existing then FrameEntry(x.successor) !in x.existing
      else LawEntry(r.successorLawHash) !in x.existing
    case NoPredecessor => r.priorAmendmentHash != "" ==> x.predecessorHash.Some?
    case RecordChainBroken => r.priorAmendmentHash == "" || x.predecessorHash == Some(r.priorAmendmentHash)
  }

  /** The first key with the authority's MosaicID, if there is one. */
  ghost function FirstKeyNamed(c: Crypto, keys: seq<Key>, authority: string): (k: Option<Key>)
    ensures k.None? <==> forall i :: 0 <= i < |keys| ==> c.mosaic(keys[i]) != authority
    ensures k.Some? ==> exists i :: FirstNamed(c, keys, authority, i) && keys[i] == k.value
  {
    var i := FirstNamedPosition(c, keys, authority);
    if i < |keys| then Some(keys[i]) else None
  }

  ghost function FirstNamedPosition(c: Crypto, keys: seq<Key>, authority: string): (i: nat)
    ensures i <= |keys| && forall j :: 0 <= j < i ==> c.mosaic(keys[j]) != authority
    ensures i < |keys| ==> FirstNamed(c, keys, authority, i)
  {
    if keys == [] || c.mosaic(keys[0]) == authority then 0
    else 1 + FirstNamedPosition(c, keys[1..], authority)
  }

  /** The order of the checks; the three about legs are made on the legend and then on the schema. */
  function Rank(reason: Reason): nat {
    match reason
    case BadKind => 0
    case BadHash => 1
    case PriorLawMismatch => 2
    case SuccessorLawMismatch => 3
    case LegPriorMismatch => 4
    case LegSuccessorMismatch => 4
    case UncommittedLegMoved => 4
    case Unsigned => 5
    case UnknownAuthority => 6
    case RetiredKey => 7
    case BadSignature => 8
    case LineageBroken => 9
    case SuccessorPresent => 10
    case NoPredecessor => 11
    case RecordChainBroken => 12
  }

  /** A refusal names a demand that is not met, all earlier ones being met; admission means that all are met. */
  lemma RefusalNamesFirstFailure(c: Crypto, r: AmendmentRecord, x: Context)
    ensures var verdict := IsAdmissible(c, r, x);
            && (verdict.Admitted? <==> forall reason :: Meets(c, r, x, reason))
            && (verdict.Refused? ==>
                  && !Meets(c, r, x, verdict.reason)
                  && forall reason :: Rank(reason) < Rank(verdict.reason) ==> Meets(c, r, x, reason))
  {
    var frames, signer, lineage, chain :=
      FramesVerdict(c, r, x), AuthorityVerdict(c, r, x), LineageVerdict(r, x), RecordChainVerdict(r, x);
    FramesDiagnosis(c, r, x);
    SignerDiagnosis(c, r, x);
    LineageDiagnosis(c, r, x);
    assert IsAdmissible(c, r, x) ==
           if frames.Refused? then frames else if signer.Refused? then signer
           else if lineage.Refused? then lineage else chain;
  }

  /** The stage's verdict reports, of the demands ranked from `low` to `high`, the first that is not met. */
  ghost predicate Diagnoses(c: Crypto, r: AmendmentRecord, x: Context, verdict: Verdict, low: nat, high: nat) {
    && (verdict.Refused? ==> low <= Rank(verdict.reason) <= high && !Meets(c, r, x, verdict.reason))
    && (forall reason :: low <= Rank(reason) <= high && (verdict.Refused? ==> Rank(reason) < Rank(verdict.reason)) ==>
                           Meets(c, r, x, reason))
  }

  /** The checks made before the signature. */
  function FramesVerdict(c: Crypto, r: AmendmentRecord, x: Context): Verdict {
    if r.amendmentKind != "genesis" && r.amendmentKind != "ordinary" then Refused(BadKind)
    else if !VerifyHash(c, r) then Refused(BadHash)
    else if r.priorLawHash != x.prior.law then Refused(PriorLawMismatch)
    else if r.successorLawHash != x.successor.law then Refused(SuccessorLawMismatch)
    else
      var legend := LegVerdict(r.priorLegendHash, r.successorLegendHash, x.prior.legend, x.successor.legend);
      if legend.Refused? then legend
      else LegVerdict(r.priorSchemaHash, r.successorSchemaHash, x.prior.schema, x.successor.schema)
  }

  lemma FramesDiagnosis(c: Crypto, r: AmendmentRecord, x: Context)
    ensures Diagnoses(c, r, x, FramesVerdict(c, r, x), 0, 4)
  {
  }

  lemma SignerDiagnosis(c: Crypto, r: AmendmentRecord, x: Context)
    ensures Diagnoses(c, r, x, AuthorityVerdict(c, r, x), 5, 8)
  {
    FirstKeyNamedIsMatch(c, KeysFrom(c, x.governor, x.succession), r.authority);
  }

  lemma FirstKeyNamedIsMatch(c: Crypto, keys: seq<Key>, authority: string)
    ensures FirstKeyNamed(c, keys, authority) == FirstMatch(keys, Named(c, authority))
  {
    var i := FirstNamedPosition(c, keys, authority);
    if i < |keys| {
      FirstMatchAt(keys, Named(c, authority), i);
    } else {
      FirstMatchIsMember(keys, Named(c, authority));
    }
  }

  lemma LineageDiagnosis(c: Crypto, r: AmendmentRecord, x: Context)
    ensures Diagnoses(c, r, x, LineageVerdict(r, x), 9, 10)
    ensures Diagnoses(c, r, x, RecordChainVerdict(r, x), 11, 12)
  {
    assert (exists e :: e in x.existing && e.FrameEntry?) <==> (exists f :: FrameEntry(f) in x.existing) by {
      if e :| e in x.existing && e.FrameEntry? {
        assert FrameEntry(e.frame) in x.existing;
      }
    }
  }

  /** The same context seen by a caller that tracks law hashes instead of frames. */
  function LawKeyed(x: Context): Context {
    x.(priorSuccessor := if x.priorSuccessor.PriorFrame? then PriorLaw(x.priorSuccessor.frame.law) else x.priorSuccessor,
       existing := set e | e in x.existing :: if e.FrameEntry? then LawEntry(e.frame.law) else e)
  }

  predicate SameLegs(f: Frame, g: Frame) {
    f.legend == g.legend && f.schema == g.schema
  }

  /** While only the law leg has ever moved, tracking law hashes and tracking frames give the same verdict. */
  lemma LawKeyingAgreesWhileOnlyLawMoves(c: Crypto, r: AmendmentRecord, x: Context)
    requires forall e :: e in x.existing ==> e.FrameEntry? && SameLegs(e.frame, x.prior)
    requires SameLegs(x.successor, x.prior)
    requires x.priorSuccessor.PriorFrame? ==> SameLegs(x.priorSuccessor.frame, x.prior)
    ensures IsAdmissible(c, r, LawKeyed(x)).Admitted? <==> IsAdmissible(c, r, x).Admitted?
  {
    AdmittedIff(c, r, x);
    AdmittedIff(c, r, LawKeyed(x));
    if FramesMatch(r, x) {
      LineageKeyingAgrees(r, x);
    }
    assert FramesMatch(r, LawKeyed(x)) <==> FramesMatch(r, x);
    assert forall i: nat :: SignedBy(c, r, LawKeyed(x), i) <==> SignedBy(c, r, x, i);
  }

  lemma LineageKeyingAgrees(r: AmendmentRecord, x: Context)
    requires forall e :: e in x.existing ==> e.FrameEntry? && SameLegs(e.frame, x.prior)
    requires SameLegs(x.successor, x.prior)
    requires x.priorSuccessor.PriorFrame? ==> SameLegs(x.priorSuccessor.frame, x.prior)
    requires FramesMatch(r, x)
    ensures ContinuesLineage(r, LawKeyed(x)) <==> ContinuesLineage(r, x)
  {
    var y := LawKeyed(x);
    assert forall f :: FrameEntry(f) !in y.existing;
    if LawEntry(r.successorLawHash) in y.existing {
      var e :| e in x.existing && LawEntry(e.frame.law) == LawEntry(r.successorLawHash);
      assert e.frame == x.successor;
      assert FrameEntry(x.successor) in x.existing;
    }
    if FrameEntry(x.successor) in x.existing {
      assert LawEntry(r.successorLawHash) in y.existing;
    }
    if x.existing != {} {
      var e :| e in x.existing;
      assert FrameEntry(e.frame) in x.existing;
    }
  }
}
