/**
 * The ledger gate: validating a stored ledger against the live frame, from a start frame it derives from the
 * records themselves (ugk/conformance/amendment_admissibility_gate.py).
 */
module LedgerGate {
  import opened Collections
  import opened Ordering
  import opened Amendment
  import opened Ledger
  import opened LedgerBoundaries

  predicate IsGenesis(r: AmendmentRecord) {
    r.amendmentKind == "genesis"
  }

  /** The record mentions a prior value of the leg, whether or not it moves the leg. */
  function Mentions(leg: Leg): AmendmentRecord -> bool {
    (r: AmendmentRecord) => CommittedPrior(r, leg) != ""
  }

  /** The first prior value of the leg any record mentions, or the live value. */
  function DerivedLeg(records: seq<AmendmentRecord>, leg: Leg, live: Frame): string {
    var mention := FirstMatch(records, Mentions(leg));
    if mention.Some? then CommittedPrior(mention.value, leg) else LegOf(live, leg)
  }

  function DerivedStart(genesis: AmendmentRecord, records: seq<AmendmentRecord>, live: Frame): Frame {
    Frame(genesis.priorLawHash, DerivedLeg(records, Legend, live), DerivedLeg(records, Schema, live))
  }

  /** There is a genesis record, and the walk from the derived start admits every record and ends live. */
  ghost predicate Passes(s: Setup, records: seq<AmendmentRecord>, live: Frame) {
    var genesis := FirstMatch(records, IsGenesis);
    && genesis.Some?
    && var start := DerivedStart(genesis.value, records, live);
       AdmittedLedger(s, EntriesFrom(start, records)) && Replayed(start, records) == live
  }

  method FirstMentioned(records: seq<AmendmentRecord>, leg: Leg, live: Frame) returns (value: string)
    ensures value == DerivedLeg(records, leg, live)
    ensures || (&& value == LegOf(live, leg)
                && forall i :: 0 <= i < |records| ==> CommittedPrior(records[i], leg) == "")
            || exists i :: && 0 <= i < |records| && value == CommittedPrior(records[i], leg) != ""
                           && forall j :: 0 <= j < i ==> CommittedPrior(records[j], leg) == ""
  {
    for i := 0 to |records|
      invariant DerivedLeg(records, leg, live) == DerivedLeg(records[i..], leg, live)
      invariant forall j :: 0 <= j < i ==> CommittedPrior(records[j], leg) == ""
    {
      assert records[i..][1..] == records[i + 1..];
      if CommittedPrior(records[i], leg) != "" {
        return CommittedPrior(records[i], leg);
      }
    }
    value := LegOf(live, leg);
  }

  method ValidateLedger(s: Setup, records: seq<AmendmentRecord>, live: Frame) returns (ok: bool)
    ensures ok <==> Passes(s, records, live)
    ensures ok <==>
            && (exists i :: && 0 <= i < |records| && records[i].amendmentKind == "genesis"
                            && records[i].priorLawHash == records[0].priorLawHash
                            && forall j :: 0 <= j < i ==> records[j].amendmentKind != "genesis")
            && LegDerivable(records, Legend, live) && LegDerivable(records, Schema, live)
            && exists h :: HistoryTo(s, records, live, h)
  {
    PassesIff(s, records, live);
    if records == [] {
      return false;
    }
    var genesis := FirstMatch(records, IsGenesis);
    if genesis.None? {
      return false;
    }
    var startLegend := FirstMentioned(records, Legend, live);
    var startSchema := FirstMentioned(records, Schema, live);
    var admitted, head := WalkLedger(s, Frame(genesis.value.priorLawHash, startLegend, startSchema), records);
    ok := admitted && head == live;
  }

  // ---- when the derived start is the true one ------------------------------------------------------

  /** What the records say of a leg's start: the first that moves it states it; if none does, it never changed. */
  function StatedLeg(records: seq<AmendmentRecord>, leg: Leg, live: Frame): string {
    var commit := FirstMatch(records, Commits(leg));
    if commit.Some? then CommittedPrior(commit.value, leg) else LegOf(live, leg)
  }

  lemma {:induction false} LegCarriedToEnd(entries: seq<Entry>, leg: Leg, i: nat)
    requires i < |entries| && Continuous(entries)
    requires forall k :: 0 <= k <= i ==> CommittedSuccessor(entries[k].record, leg) == ""
    ensures LegOf(entries[i].successor, leg) == LegOf(entries[0].prior, leg)
  {
    UncommittedLegIsCarried(entries, leg, i);
  }

  /** The true start of every admitted history that ends live. */
  lemma TrueStartIsStated(s: Setup, h: seq<Entry>, leg: Leg)
    requires AdmittedLedger(s, h) && h != []
    ensures LegOf(h[0].prior, leg) == StatedLeg(Records(h), leg, h[|h| - 1].successor)
  {
    var records := Records(h);
    AdmittedIsContinuous(s, h);
    var i := FirstMatchPosition(records, Commits(leg));
    assert forall j :: 0 <= j < |h| ==> (Commits(leg)(records[j]) <==> CommittedSuccessor(h[j].record, leg) != "");
    if FirstMatch(records, Commits(leg)).Some? {
      FirstCommitStatesTheStart(s, h, leg, i);
    } else {
      LegCarriedToEnd(h, leg, |h| - 1);
    }
  }

  /** Once moved, a leg is never empty again. */
  lemma {:induction false} MovedLegStaysNonEmpty(entries: seq<Entry>, leg: Leg, k: nat, i: nat)
    requires k <= i < |entries| && Continuous(entries) && CommittedSuccessor(entries[k].record, leg) != ""
    ensures LegOf(entries[i].successor, leg) != ""
  {
    if k < i {
      MovedLegStaysNonEmpty(entries, leg, k, i - 1);
    }
  }

  /**
   * The condition on one leg, read off the records: the first record that mentions a prior value agrees with
   * the first that moves the leg; if none moves it, with the live value; and if one moves it, some mentions it.
   */
  predicate LegDerivable(records: seq<AmendmentRecord>, leg: Leg, live: Frame) {
    match (FirstMatch(records, Mentions(leg)), FirstMatch(records, Commits(leg)))
    case (None, None) => true
    case (Some(m), None) => CommittedPrior(m, leg) == LegOf(live, leg)
    case (None, Some(_)) => false
    case (Some(m), Some(c)) => CommittedPrior(m, leg) == CommittedPrior(c, leg)
  }

  /** There is a genesis record, and the first one departs from the law the first record departs from. */
  ghost predicate GenesisFromStart(records: seq<AmendmentRecord>) {
    exists i :: FirstGenesis(records, i) && records[i].priorLawHash == records[0].priorLawHash
  }

  ghost predicate FirstGenesis(records: seq<AmendmentRecord>, i: int) {
    && 0 <= i < |records| && records[i].amendmentKind == "genesis"
    && forall j :: 0 <= j < i ==> records[j].amendmentKind != "genesis"
  }

  lemma FirstGenesisIsTheMatch(records: seq<AmendmentRecord>)
    ensures (exists i :: FirstGenesis(records, i)) <==> FirstMatch(records, IsGenesis).Some?
    ensures forall i :: FirstGenesis(records, i) ==> FirstMatch(records, IsGenesis) == Some(records[i])
  {
    var k := FirstMatchPosition(records, IsGenesis);
    assert forall i :: 0 <= i < |records| ==> (IsGenesis(records[i]) <==> records[i].amendmentKind == "genesis");
    assert FirstMatch(records, IsGenesis).Some? ==> FirstGenesis(records, k);
    forall i | FirstGenesis(records, i)
      ensures FirstMatch(records, IsGenesis) == Some(records[i])
    {
      FirstMatchAt(records, IsGenesis, i);
    }
  }

  ghost predicate StartDerivable(records: seq<AmendmentRecord>, live: Frame) {
    GenesisFromStart(records) && LegDerivable(records, Legend, live) && LegDerivable(records, Schema, live)
  }

  lemma LegDerivedIff(s: Setup, h: seq<Entry>, leg: Leg)
    requires AdmittedLedger(s, h) && h != []
    ensures var live := h[|h| - 1].successor;
            DerivedLeg(Records(h), leg, live) == LegOf(h[0].prior, leg) <==> LegDerivable(Records(h), leg, live)
  {
    var records, live := Records(h), h[|h| - 1].successor;
    TrueStartIsStated(s, h, leg);
    var commit := FirstMatch(records, Commits(leg));
    var k := FirstMatchPosition(records, Commits(leg));
    FirstMatchIsMember(records, Mentions(leg));
    if commit.Some? {
      AdmittedIsContinuous(s, h);
      MovedLegStaysNonEmpty(h, leg, k, |h| - 1);
      if FirstMatch(records, Mentions(leg)).None? {
        assert !Mentions(leg)(records[k]);
      }
    }
  }

  /** The gate starts its walk from the true start of the ledger exactly under that condition. */
  lemma StartIsTrueIff(s: Setup, h: seq<Entry>)
    requires AdmittedLedger(s, h) && h != [] && FirstMatch(Records(h), IsGenesis).Some?
    ensures var records, live := Records(h), h[|h| - 1].successor;
            DerivedStart(FirstMatch(records, IsGenesis).value, records, live) == h[0].prior <==>
            StartDerivable(records, live)
  {
    FirstGenesisIsTheMatch(Records(h));
    LegDerivedIff(s, h, Legend);
    LegDerivedIff(s, h, Schema);
    AdmittedStep(s, h, 0);
  }

  /** h is an admitted history of the records that ends in the live frame. */
  ghost predicate HistoryTo(s: Setup, records: seq<AmendmentRecord>, live: Frame, h: seq<Entry>) {
    AdmittedLedger(s, h) && Records(h) == records && h != [] && h[|h| - 1].successor == live
  }

  /**
   * The gate passes a ledger exactly when some admitted history of it ends live and its start can be derived.
   * So it never passes a ledger without such a history, and misses one only for the derivation.
   */
  lemma PassesIff(s: Setup, records: seq<AmendmentRecord>, live: Frame)
    ensures Passes(s, records, live) <==>
            && (exists i :: && 0 <= i < |records| && records[i].amendmentKind == "genesis"
                            && records[i].priorLawHash == records[0].priorLawHash
                            && forall j :: 0 <= j < i ==> records[j].amendmentKind != "genesis")
            && LegDerivable(records, Legend, live) && LegDerivable(records, Schema, live)
            && exists h :: HistoryTo(s, records, live, h)
  {
    if i :| && 0 <= i < |records| && records[i].amendmentKind == "genesis"
            && records[i].priorLawHash == records[0].priorLawHash
            && forall j :: 0 <= j < i ==> records[j].amendmentKind != "genesis" {
      assert FirstGenesis(records, i);
    }
    if Passes(s, records, live) {
      PassingHasHistory(s, records, live);
    }
    if h :| StartDerivable(records, live) && HistoryTo(s, records, live, h) {
      HistoryWithDerivableStartPasses(s, records, live, h);
    }
  }

  /** The ledger in which a working signer's genesis record moves the law passes against the frame it leads to. */
  lemma GenesisAlonePasses(g: Signer, start: Frame, law: string)
    requires g.Works()
    ensures var r := Issue(g, Draft("genesis", start.law, law, "", "", ""));
            Passes(g.Setup(), [r], After(start, r))
  {
    var draft := Draft("genesis", start.law, law, "", "", "");
    var r := Issue(g, draft);
    var h := EntriesFrom(start, [r]);
    OneMove(start, r);
    assert LegsOf(r) == LegsOf(draft);
    IssuedIsAdmitted(g, draft, h, 0);
    assert HistoryTo(g.Setup(), [r], After(start, r), h);
    assert [r][0].amendmentKind == "genesis";
    forall leg: Leg
      ensures LegDerivable([r], leg, After(start, r))
    {
      FirstMatchIsMember([r], Mentions(leg));
      FirstMatchIsMember([r], Commits(leg));
      assert !Mentions(leg)([r][0]) && !Commits(leg)([r][0]);
    }
    PassesIff(g.Setup(), [r], After(start, r));
  }

  lemma OneMove(start: Frame, r: AmendmentRecord)
    ensures var h := EntriesFrom(start, [r]);
            h == [Entry(r, start, After(start, r))] && Records(h) == [r]
  {
    assert [r][..0] == [] && [r][..1] == [r];
    assert Replayed(start, [r][..0]) == start;
  }

  lemma PassingHasHistory(s: Setup, records: seq<AmendmentRecord>, live: Frame)
    requires Passes(s, records, live)
    ensures StartDerivable(records, live) && exists h :: HistoryTo(s, records, live, h)
  {
    var genesis := FirstMatch(records, IsGenesis).value;
    var start := DerivedStart(genesis, records, live);
    var h := EntriesFrom(start, records);
    assert Records(h) == records;
    assert records[..|records|] == records && records[..0] == [];
    assert HistoryTo(s, records, live, h);
    StartIsTrueIff(s, h);
  }

  lemma HistoryWithDerivableStartPasses(s: Setup, records: seq<AmendmentRecord>, live: Frame, h: seq<Entry>)
    requires StartDerivable(records, live) && HistoryTo(s, records, live, h)
    ensures Passes(s, records, live)
  {
    assert FirstMatch(records, IsGenesis).Some? by {
      FirstGenesisIsTheMatch(records);
    }
    StartIsTrueIff(s, h);
    ReplayReproducesHistory(s, h);
    assert records[..|records|] == records;
  }

  /**
   * A record may mention a prior legend without moving it: it is admitted, and the gate then walks from the
   * mentioned value and refuses the ledger.
   */
  lemma DanglingPriorMisleadsTheGate(g: Signer, start: Frame, law: string, dangling: string)
    requires g.Works() && dangling != "" && dangling != start.legend
    ensures var r := Issue(g, Draft("genesis", start.law, law, "", "", "").(priorLegendHash := dangling));
            var live := After(start, r);
            && HistoryTo(g.Setup(), [r], live, EntriesFrom(start, [r]))
            && !Passes(g.Setup(), [r], live)
  {
    var draft := Draft("genesis", start.law, law, "", "", "").(priorLegendHash := dangling);
    var r := Issue(g, draft);
    var h := EntriesFrom(start, [r]);
    OneMove(start, r);
    assert LegsOf(r) == LegsOf(draft);
    IssuedIsAdmitted(g, draft, h, 0);
    FirstMatchAt([r], Mentions(Legend), 0);
    assert !Commits(Legend)([r][0]);
    FirstMatchIsMember([r], Commits(Legend));
    PassesIff(g.Setup(), [r], After(start, r));
  }
}
