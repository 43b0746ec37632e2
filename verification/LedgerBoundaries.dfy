/** Where the ledger guarantees stop: ledgers any working signer can have admitted, on the edge of each promise. */
module LedgerBoundaries {
  import opened Collections
  import opened Ordering
  import opened Amendment
  import opened Ledger
  import opened Admissibility

  /** A Governor key together with the ability to sign for it. */
  datatype Signer = Signer(crypto: Crypto, key: Key, sign: Message -> string) {
    ghost predicate Works() {
      forall m :: sign(m) != "" && crypto.verify(key, m, sign(m))
    }

    function Setup(): Setup {
      Ledger.Setup.Setup(crypto, key, [], i => false)
    }
  }

  /** The record a signer produces from a draft: its own authority, its signature, and the hash over both. */
  function Issue(g: Signer, draft: AmendmentRecord): (r: AmendmentRecord)
    ensures VerifyHash(g.crypto, r)
    ensures r.authority == g.crypto.mosaic(g.key) && r.signature == g.sign(AmendmentMessage(SignedPayload(r)))
    ensures SameTransition(r, draft) && r.amendmentKind == draft.amendmentKind
    ensures LegsOf(r) == LegsOf(draft)
  {
    var named := draft.(authority := g.crypto.mosaic(g.key));
    var signed := named.(signature := g.sign(AmendmentMessage(SignedPayload(named))));
    assert SignedPayload(signed) == SignedPayload(named);
    Create(g.crypto, signed)
  }

  /** A draft that moves the law and, where given, the schema; legend and documentary fields are immaterial. */
  function Draft(kind: string, priorLaw: string, law: string, priorSchema: string, schema: string, priorHash: string):
    AmendmentRecord
  {
    AmendmentRecord("", priorLaw, law, [], [], "", "", "phase", "t", kind, "", "", priorSchema, schema, priorHash)
  }

  /** An issued record is admitted wherever its frames, its freshness and its predecessor are right. */
  lemma IssuedIsAdmitted(g: Signer, draft: AmendmentRecord, entries: seq<Entry>, i: nat)
    requires g.Works() && (draft.amendmentKind == "genesis" || draft.amendmentKind == "ordinary")
    requires i < |entries| && entries[i].record == Issue(g, draft)
    requires FramesMatch(entries[i].record, ContextAt(g.Setup(), entries, i))
    requires i > 0 ==> entries[i].prior == entries[i - 1].successor
    requires forall k :: 0 <= k < i ==> entries[k].successor != entries[i].successor
    requires draft.priorAmendmentHash != "" ==> i > 0 && draft.priorAmendmentHash == entries[i - 1].record.amendmentHash
    ensures AdmittedAt(g.Setup(), entries, i)
  {
    var r, x := entries[i].record, ContextAt(g.Setup(), entries, i);
    assert r.priorAmendmentHash == LegsOf(r).priorAmendment == draft.priorAmendmentHash;
    assert SignedBy(g.crypto, r, x, 0);
    FreshInContext(g.Setup(), entries, i);
    AdmittedIff(g.crypto, r, x);
  }

  /**
   * The start frame is nobody's successor: from any start, a signer can move the law away and back, each record
   * after the first committing its predecessor.
   */
  lemma StartFrameCanReturn(g: Signer, start: Frame, law: string)
    requires g.Works() && law != start.law
    ensures var away := Issue(g, Draft("genesis", start.law, law, "", "", ""));
            var back := Issue(g, Draft("ordinary", law, start.law, "", "", away.amendmentHash));
            var ledger := EntriesFrom(start, [away, back]);
            AdmittedLedger(g.Setup(), ledger) && ledger[1].successor == start
  {
    var draft := Draft("genesis", start.law, law, "", "", "");
    var away := Issue(g, draft);
    var draft' := Draft("ordinary", law, start.law, "", "", away.amendmentHash);
    var back := Issue(g, draft');
    var ledger := EntriesFrom(start, [away, back]);
    TwoMoves(start, [away, back]);
    assert LegsOf(away) == LegsOf(draft) && LegsOf(back) == LegsOf(draft');
    IssuedIsAdmitted(g, draft, ledger, 0);
    IssuedIsAdmitted(g, draft', ledger, 1);
  }

  /** Two successive schema moves under one law: the lookup for the second answers with the first. */
  lemma SecondSchemaMoveIsShadowed(g: Signer, start: Frame, s1: string, s2: string)
    requires g.Works() && s1 != "" && s2 != "" && start.schema != s1 && s1 != s2
    ensures var first := Issue(g, Draft("genesis", start.law, start.law, start.schema, s1, ""));
            var second := Issue(g, Draft("ordinary", start.law, start.law, s1, s2, first.amendmentHash));
            var ledger := EntriesFrom(start, [first, second]);
            && AdmittedLedger(g.Setup(), ledger) && first != second
            && Transition([first, second], ledger[1].prior.law, ledger[1].successor.law) == Some(first)
  {
    var draft := Draft("genesis", start.law, start.law, start.schema, s1, "");
    var first := Issue(g, draft);
    var draft' := Draft("ordinary", start.law, start.law, s1, s2, first.amendmentHash);
    var second := Issue(g, draft');
    var ledger := EntriesFrom(start, [first, second]);
    TwoMoves(start, [first, second]);
    assert LegsOf(first) == LegsOf(draft) && LegsOf(second) == LegsOf(draft');
    IssuedIsAdmitted(g, draft, ledger, 0);
    IssuedIsAdmitted(g, draft', ledger, 1);
    FirstMatchAt([first, second], Connects(start.law, start.law), 0);
  }

  lemma TwoMoves(start: Frame, records: seq<AmendmentRecord>)
    requires |records| >= 2
    ensures var ledger := EntriesFrom(start, records);
            var middle := After(start, records[0]);
            && ledger[0] == Entry(records[0], start, middle)
            && ledger[1] == Entry(records[1], middle, After(middle, records[1]))
  {
    assert records[..1][..0] == [] && records[..2][..1] == records[..1] && records[..0] == [];
    assert Replayed(start, records[..0]) == start;
    assert Replayed(start, records[..1]) == After(start, records[0]);
  }

  // ---- the same record twice --------------------------------------------------------------------

  /** The ledger with a verbatim copy of record k appended. */
  function WithCopy(entries: seq<Entry>, k: nat): seq<Entry>
    requires k < |entries|
  {
    var head, r := entries[|entries| - 1].successor, entries[k].record;
    entries + [Entry(r, head, After(head, r))]
  }

  /**
   * Distinct frames do not make distinct records. A copy of an admitted record is admitted again exactly when
   * the head frame matches what it says of its prior frame, it leads to a frame not reached before, the last
   * record is the predecessor it commits, and its key is still active or the copy is attested as historical.
   */
  lemma CopyIsAdmittedIff(s: Setup, entries: seq<Entry>, k: nat)
    requires AdmittedLedger(s, entries) && k < |entries|
    ensures var n, r := |entries|, entries[k].record;
            var head := entries[n - 1].successor;
            AdmittedAt(s, WithCopy(entries, k), n) <==>
            && head.law == r.priorLawHash
            && (forall leg: Leg :: CommittedSuccessor(r, leg) != "" ==> CommittedPrior(r, leg) == LegOf(head, leg))
            && (forall j :: 0 <= j < n ==> entries[j].successor != After(head, r))
            && (r.priorAmendmentHash != "" ==> r.priorAmendmentHash == entries[n - 1].record.amendmentHash)
            && (s.historical(n) || SignerIsActive(s, r))
  {
    var n, r, longer := |entries|, entries[k].record, WithCopy(entries, k);
    assert AdmittedAt(s, entries, k);
    var x, y := ContextAt(s, entries, k), ContextAt(s, longer, n);
    AdmittedIff(s.crypto, r, x);
    AdmittedIff(s.crypto, r, y);
    CopySignedIff(s, r, x, y);
    FreshInContext(s, longer, n);
    assert forall j :: 0 <= j < n ==> longer[j] == entries[j];
  }

  lemma CopySignedIff(s: Setup, r: AmendmentRecord, x: Context, y: Context)
    requires x.governor == s.governor && x.succession == s.succession && exists i: nat :: SignedBy(s.crypto, r, x, i)
    requires y.governor == s.governor && y.succession == s.succession
    ensures (exists i: nat :: SignedBy(s.crypto, r, y, i)) <==> y.historical || SignerIsActive(s, r)
  {
    var keys := KeysFrom(s.crypto, s.governor, s.succession);
    var i: nat :| SignedBy(s.crypto, r, x, i);
    FirstMatchAt(keys, Named(s.crypto, r.authority), i);
    if y.historical || SignerIsActive(s, r) {
      assert SignedBy(s.crypto, r, y, i);
    }
    if j: nat :| SignedBy(s.crypto, r, y, j) {
      FirstMatchAt(keys, Named(s.crypto, r.authority), j);
    }
  }

  /** A copy is only ever admitted after a leg it does not commit has moved away from where the original found it. */
  lemma CopyNeedsAnotherLegMoved(s: Setup, entries: seq<Entry>, k: nat)
    requires AdmittedLedger(s, entries) && k < |entries|
    requires AdmittedAt(s, WithCopy(entries, k), |entries|)
    ensures exists leg: Leg :: CommittedSuccessor(entries[k].record, leg) == ""
                               && LegOf(entries[|entries| - 1].successor, leg) != LegOf(entries[k].prior, leg)
  {
    CopyIsAdmittedIff(s, entries, k);
    AdmittedStep(s, entries, k);
    var head, r, found := entries[|entries| - 1].successor, entries[k].record, entries[k].prior;
    assert After(head, r) != After(found, r);
    if r.successorLegendHash == "" && head.legend != found.legend {
      assert CommittedSuccessor(r, Legend) == "" && LegOf(head, Legend) != LegOf(found, Legend);
    } else {
      assert CommittedSuccessor(r, Schema) == "" && LegOf(head, Schema) != LegOf(found, Schema);
    }
  }

  /** While only the law moves, no record can be admitted a second time. */
  lemma NoCopyWhileOnlyLawMoves(s: Setup, entries: seq<Entry>, k: nat)
    requires AdmittedLedger(s, entries) && MovesOnlyLaw(entries) && k < |entries|
    ensures !AdmittedAt(s, WithCopy(entries, k), |entries|)
  {
    if AdmittedAt(s, WithCopy(entries, k), |entries|) {
      CopyNeedsAnotherLegMoved(s, entries, k);
      AdmittedIsContinuous(s, entries);
      LawFrameSharesLegs(s, entries, |entries| - 1);
      UncommittedLegIsCarried(entries, Legend, k);
      UncommittedLegIsCarried(entries, Schema, k);
    }
  }

  /** A record that commits its predecessor is only repeated behind a repetition of that predecessor. */
  lemma CopyRepeatsItsPredecessor(s: Setup, entries: seq<Entry>, k: nat)
    requires AdmittedLedger(s, entries) && k < |entries| && s.crypto.InjectiveDigest()
    requires entries[k].record.priorAmendmentHash != ""
    requires AdmittedAt(s, WithCopy(entries, k), |entries|)
    ensures k > 0 && entries[|entries| - 1].record == entries[k - 1].record
  {
    CopyIsAdmittedIff(s, entries, k);
    AdmittedIsHashChained(s, entries);
    var records := Records(entries);
    assert ChainedAt(s.crypto, records, k) && ChainedAt(s.crypto, records, |entries| - 1);
    assert ChainedAt(s.crypto, records, k - 1);
    HashIdentifiesRecord(s.crypto, records[|entries| - 1], records[k - 1]);
  }

  /** It happens: a law move, its reversal together with a schema move, and the very same law move once more. */
  lemma LawMoveCanBeRepeated(g: Signer, start: Frame, law: string, schema: string)
    requires g.Works() && law != start.law && schema != "" && schema != start.schema
    ensures var move := Issue(g, Draft("ordinary", start.law, law, "", "", ""));
            var back := Issue(g, Draft("ordinary", law, start.law, start.schema, schema, ""));
            var ledger := EntriesFrom(start, [move, back]);
            AdmittedLedger(g.Setup(), ledger) && AdmittedAt(g.Setup(), WithCopy(ledger, 0), 2)
  {
    var draft := Draft("ordinary", start.law, law, "", "", "");
    var draft' := Draft("ordinary", law, start.law, start.schema, schema, "");
    var move, back := Issue(g, draft), Issue(g, draft');
    var ledger := EntriesFrom(start, [move, back]);
    TwoMoves(start, [move, back]);
    assert LegsOf(move) == LegsOf(draft) && LegsOf(back) == LegsOf(draft');
    IssuedIsAdmitted(g, draft, ledger, 0);
    IssuedIsAdmitted(g, draft', ledger, 1);
    var longer := WithCopy(ledger, 0);
    assert longer[0] == ledger[0] && longer[1] == ledger[1];
    IssuedIsAdmitted(g, draft, longer, 2);
  }
}
