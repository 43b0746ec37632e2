/** Whole amendment ledgers: frames replayed from records, append-only lineage, and the record-hash chain. */
module Ledger {
  import opened Collections
  import opened Ordering
  import opened Amendment

  /** A record together with the frames it was judged against. */
  datatype Entry = Entry(record: AmendmentRecord, prior: Frame, successor: Frame)

  /** What is fixed while a ledger is judged; `historical` says which records are attested as pre-rotation. */
  datatype Setup = Setup(crypto: Crypto, governor: Key, succession: seq<SuccessorLink>, historical: nat -> bool)

  function Records(entries: seq<Entry>): (r: seq<AmendmentRecord>)
    ensures |r| == |entries| && forall i :: 0 <= i < |r| ==> r[i] == entries[i].record
  {
    seq(|entries|, i requires 0 <= i < |entries| => entries[i].record)
  }

  function SuccessorsOf(entries: seq<Entry>): set<Successor> {
    set e | e in entries :: FrameEntry(e.successor)
  }

  /** Record i is judged after its predecessors: the last successor frame, all earlier ones, the last hash. */
  function ContextAt(s: Setup, entries: seq<Entry>, i: nat): Context
    requires i < |entries|
  {
    Context(entries[i].prior, entries[i].successor, s.governor,
            if i == 0 then NoPrior else PriorFrame(entries[i - 1].successor),
            SuccessorsOf(entries[..i]),
            s.succession, s.historical(i),
            if i == 0 then None else Some(entries[i - 1].record.amendmentHash))
  }

  predicate AdmittedAt(s: Setup, entries: seq<Entry>, i: nat)
    requires i < |entries|
  {
    IsAdmissible(s.crypto, entries[i].record, ContextAt(s, entries, i)).Admitted?
  }

  ghost predicate AdmittedLedger(s: Setup, entries: seq<Entry>) {
    forall i :: 0 <= i < |entries| ==> AdmittedAt(s, entries, i)
  }

  /** The record's signer is the active key. */
  predicate SignerIsActive(s: Setup, r: AmendmentRecord) {
    FirstMatch(KeysFrom(s.crypto, s.governor, s.succession), Named(s.crypto, r.authority)) ==
    Some(ActiveKey(s.crypto, s.governor, s.succession))
  }

  // ---- replay -------------------------------------------------------------------------------

  /** The law leg is always committed; legend and schema are carried unless committed. */
  function After(f: Frame, r: AmendmentRecord): Frame {
    Frame(r.successorLawHash,
          if r.successorLegendHash != "" then r.successorLegendHash else f.legend,
          if r.successorSchemaHash != "" then r.successorSchemaHash else f.schema)
  }

  function Replayed(start: Frame, records: seq<AmendmentRecord>): Frame {
    if records == [] then start
    else After(Replayed(start, records[..|records| - 1]), records[|records| - 1])
  }

  /** The history the records alone describe. */
  function EntriesFrom(start: Frame, records: seq<AmendmentRecord>): (entries: seq<Entry>)
    ensures |entries| == |records|
  {
    seq(|records|, i requires 0 <= i < |records| =>
      Entry(records[i], Replayed(start, records[..i]), Replayed(start, records[..i + 1])))
  }

  /** An admitted record moves its frame exactly as its committed legs say, from where its predecessor left it. */
  lemma AdmittedStep(s: Setup, entries: seq<Entry>, i: nat)
    requires i < |entries| && AdmittedAt(s, entries, i)
    ensures entries[i].successor == After(entries[i].prior, entries[i].record)
    ensures i > 0 ==> entries[i].prior == entries[i - 1].successor
    ensures entries[i].prior.law == entries[i].record.priorLawHash
  {
  }

  /** What admission forces on frames: each record starts where the last ended and moves what it commits. */
  ghost predicate Continuous(entries: seq<Entry>) {
    forall i :: 0 <= i < |entries| ==>
                  && entries[i].successor == After(entries[i].prior, entries[i].record)
                  && entries[i].prior.law == entries[i].record.priorLawHash
                  && (i > 0 ==> entries[i].prior == entries[i - 1].successor)
  }

  lemma AdmittedIsContinuous(s: Setup, entries: seq<Entry>)
    requires AdmittedLedger(s, entries)
    ensures Continuous(entries)
  {
    forall i | 0 <= i < |entries|
      ensures entries[i].successor == After(entries[i].prior, entries[i].record)
      ensures entries[i].prior.law == entries[i].record.priorLawHash
      ensures i > 0 ==> entries[i].prior == entries[i - 1].successor
    {
      AdmittedStep(s, entries, i);
    }
  }

  lemma {:induction false} ReplayReaches(entries: seq<Entry>, i: nat)
    requires i < |entries| && Continuous(entries)
    ensures entries[i].prior == Replayed(entries[0].prior, Records(entries)[..i])
    ensures entries[i].successor == Replayed(entries[0].prior, Records(entries)[..i + 1])
  {
    var records := Records(entries);
    assert records[..i + 1][..i] == records[..i];
    if i > 0 {
      ReplayReaches(entries, i - 1);
    }
  }

  /** Folding the committed legs of an admitted ledger from its first frame reproduces every frame of its history. */
  lemma ReplayReproducesHistory(s: Setup, entries: seq<Entry>)
    requires AdmittedLedger(s, entries) && entries != []
    ensures entries == EntriesFrom(entries[0].prior, Records(entries))
  {
    AdmittedIsContinuous(s, entries);
    forall i | 0 <= i < |entries|
      ensures entries[i] == EntriesFrom(entries[0].prior, Records(entries))[i]
    {
      ReplayReaches(entries, i);
    }
  }

  // ---- the records alone determine the history ----------------------------------------------

  datatype Leg = Legend | Schema

  function LegOf(f: Frame, leg: Leg): string {
    if leg.Legend? then f.legend else f.schema
  }

  function CommittedSuccessor(r: AmendmentRecord, leg: Leg): string {
    if leg.Legend? then r.successorLegendHash else r.successorSchemaHash
  }

  function CommittedPrior(r: AmendmentRecord, leg: Leg): string {
    if leg.Legend? then r.priorLegendHash else r.priorSchemaHash
  }

  /** Until some record commits the leg, it keeps its first value. */
  lemma {:induction false} UncommittedLegIsCarried(entries: seq<Entry>, leg: Leg, i: nat)
    requires i < |entries| && Continuous(entries)
    requires forall k :: 0 <= k < i ==> CommittedSuccessor(entries[k].record, leg) == ""
    ensures LegOf(entries[i].prior, leg) == LegOf(entries[0].prior, leg)
  {
    if i > 0 {
      UncommittedLegIsCarried(entries, leg, i - 1);
    }
  }

  /** The first record that commits a leg states the value the whole ledger started from. */
  lemma {:induction false} FirstCommitStatesTheStart(s: Setup, entries: seq<Entry>, leg: Leg, i: nat)
    requires i < |entries| && AdmittedLedger(s, entries)
    requires forall k :: 0 <= k < i ==> CommittedSuccessor(entries[k].record, leg) == ""
    requires CommittedSuccessor(entries[i].record, leg) != ""
    ensures LegOf(entries[0].prior, leg) == CommittedPrior(entries[i].record, leg)
  {
    AdmittedIsContinuous(s, entries);
    UncommittedLegIsCarried(entries, leg, i);
    assert AdmittedAt(s, entries, i);
  }

  /** The record moves the leg. */
  function Commits(leg: Leg): AmendmentRecord -> bool {
    (r: AmendmentRecord) => CommittedSuccessor(r, leg) != ""
  }

  ghost predicate SomeCommits(entries: seq<Entry>, leg: Leg) {
    exists k :: 0 <= k < |entries| && CommittedSuccessor(entries[k].record, leg) != ""
  }

  /** Two admitted histories of the same records start a leg alike if some record commits it. */
  lemma CommittedLegStartsAlike(s1: Setup, h1: seq<Entry>, s2: Setup, h2: seq<Entry>, leg: Leg)
    requires AdmittedLedger(s1, h1) && AdmittedLedger(s2, h2) && |h1| == |h2|
    requires forall k :: 0 <= k < |h1| ==> h1[k].record == h2[k].record
    requires SomeCommits(h1, leg)
    ensures LegOf(h1[0].prior, leg) == LegOf(h2[0].prior, leg)
  {
    var i := FirstMatchPosition(Records(h1), Commits(leg));
    var k :| 0 <= k < |h1| && CommittedSuccessor(h1[k].record, leg) != "";
    assert Commits(leg)(Records(h1)[k]);
    forall j | 0 <= j < i
      ensures CommittedSuccessor(h1[j].record, leg) == ""
    {
      assert !Commits(leg)(Records(h1)[j]);
    }
    FirstCommitStatesTheStart(s1, h1, leg, i);
    FirstCommitStatesTheStart(s2, h2, leg, i);
  }

  /**
   * Two admitted histories of the same records have the same law frames throughout; and the same legend or
   * schema frames throughout whenever some record commits that leg, or both start it alike.
   */
  lemma RecordsDetermineHistory(s1: Setup, h1: seq<Entry>, s2: Setup, h2: seq<Entry>)
    requires AdmittedLedger(s1, h1) && AdmittedLedger(s2, h2)
    requires Records(h1) == Records(h2)
    ensures forall i :: 0 <= i < |h1| ==>
                          h1[i].prior.law == h2[i].prior.law && h1[i].successor.law == h2[i].successor.law
    ensures forall leg: Leg, i :: 0 <= i < |h1|
                                  && (SomeCommits(h1, leg) || LegOf(h1[0].prior, leg) == LegOf(h2[0].prior, leg))
                                  ==> && LegOf(h1[i].prior, leg) == LegOf(h2[i].prior, leg)
                                      && LegOf(h1[i].successor, leg) == LegOf(h2[i].successor, leg)
  {
    assert forall i :: 0 <= i < |h1| ==> h1[i].record == Records(h1)[i] == Records(h2)[i] == h2[i].record;
    AdmittedIsContinuous(s1, h1);
    AdmittedIsContinuous(s2, h2);
    forall leg: Leg, i | 0 <= i < |h1|
                         && (SomeCommits(h1, leg) || LegOf(h1[0].prior, leg) == LegOf(h2[0].prior, leg))
      ensures LegOf(h1[i].prior, leg) == LegOf(h2[i].prior, leg)
      ensures LegOf(h1[i].successor, leg) == LegOf(h2[i].successor, leg)
    {
      if SomeCommits(h1, leg) {
        CommittedLegStartsAlike(s1, h1, s2, h2, leg);
      }
      SameStartSameLeg(h1, h2, leg, i);
    }
  }

  lemma {:induction false} SameStartSameLeg(h1: seq<Entry>, h2: seq<Entry>, leg: Leg, i: nat)
    requires Continuous(h1) && Continuous(h2) && i < |h1| == |h2|
    requires forall k :: 0 <= k < |h1| ==> h1[k].record == h2[k].record
    requires LegOf(h1[0].prior, leg) == LegOf(h2[0].prior, leg)
    ensures LegOf(h1[i].prior, leg) == LegOf(h2[i].prior, leg)
    ensures LegOf(h1[i].successor, leg) == LegOf(h2[i].successor, leg)
  {
    if i > 0 {
      SameStartSameLeg(h1, h2, leg, i - 1);
    }
  }

  // ---- the walk over a stored ledger ------------------------------------------------------------

  /** What the walk carries when it reaches record i. */
  datatype Cursor = Cursor(head: Frame, seen: set<Successor>, previous: PriorSuccessor, previousHash: Option<string>)

  function CursorAt(start: Frame, records: seq<AmendmentRecord>, i: nat): Cursor
    requires i <= |records|
  {
    Cursor(Replayed(start, records[..i]), SuccessorsOf(EntriesFrom(start, records)[..i]),
           if i == 0 then NoPrior else PriorFrame(Replayed(start, records[..i])),
           if i == 0 then None else Some(records[i - 1].amendmentHash))
  }

  /** One step of the walk: judges record i against what the walk carries, and moves the cursor past it. */
  method Advance(s: Setup, at: Cursor, record: AmendmentRecord, i: nat,
                 ghost start: Frame, ghost records: seq<AmendmentRecord>)
    returns (admitted: bool, next: Cursor)
    requires i < |records| && record == records[i] && at == CursorAt(start, records, i)
    ensures admitted <==> AdmittedAt(s, EntriesFrom(start, records), i)
    ensures next == CursorAt(start, records, i + 1)
  {
    CursorStep(s, start, records, i);
    var successor := After(at.head, record);
    var context := Context(at.head, successor, s.governor, at.previous, at.seen, s.succession, s.historical(i),
                           at.previousHash);
    admitted := IsAdmissible(s.crypto, record, context).Admitted?;
    next := Cursor(successor, at.seen + {FrameEntry(successor)}, PriorFrame(successor), Some(record.amendmentHash));
  }

  lemma CursorStep(s: Setup, start: Frame, records: seq<AmendmentRecord>, i: nat)
    requires i < |records|
    ensures var at := CursorAt(start, records, i);
            var next := After(at.head, records[i]);
            && CursorAt(start, records, i + 1) ==
               Cursor(next, at.seen + {FrameEntry(next)}, PriorFrame(next), Some(records[i].amendmentHash))
            && ContextAt(s, EntriesFrom(start, records), i) ==
               Context(at.head, next, s.governor, at.previous, at.seen, s.succession, s.historical(i), at.previousHash)
  {
    var entries := EntriesFrom(start, records);
    assert records[..i + 1][..i] == records[..i];
    assert entries[..i + 1] == entries[..i] + [entries[i]];
    SuccessorsAppend(entries[..i], entries[i]);
  }

  /** The frame-evolving walk in stored order: carries the frame, the frames seen and the last hash. */
  method WalkLedger(s: Setup, start: Frame, records: seq<AmendmentRecord>) returns (ok: bool, head: Frame)
    ensures ok <==> AdmittedLedger(s, EntriesFrom(start, records))
    ensures ok ==> head == Replayed(start, records)
  {
    var at := Cursor(start, {}, NoPrior, None);
    for i := 0 to |records|
      invariant at == CursorAt(start, records, i)
      invariant AdmittedSoFar(s, EntriesFrom(start, records), i)
    {
      var admitted, next := Advance(s, at, records[i], i, start, records);
      if !admitted {
        return false, at.head;
      }
      at := next;
    }
    assert records[..|records|] == records;
    return true, at.head;
  }

  ghost predicate AdmittedSoFar(s: Setup, entries: seq<Entry>, n: nat)
    requires n <= |entries|
  {
    forall i :: 0 <= i < n ==> AdmittedAt(s, entries, i)
  }

  lemma SuccessorsAppend(entries: seq<Entry>, e: Entry)
    ensures SuccessorsOf(entries + [e]) == SuccessorsOf(entries) + {FrameEntry(e.successor)}
  {
    assert forall x :: x in entries + [e] <==> x in entries || x == e;
    assert e in entries + [e];
  }

  /** The walk misses nothing: if any history of these records from this frame is admitted, the replayed one is. */
  lemma WalkIsComplete(s: Setup, start: Frame, records: seq<AmendmentRecord>)
    ensures AdmittedLedger(s, EntriesFrom(start, records)) <==>
            exists h: seq<Entry> :: AdmittedLedger(s, h) && Records(h) == records && (h != [] ==> h[0].prior == start)
  {
    var replayed := EntriesFrom(start, records);
    assert Records(replayed) == records;
    if h: seq<Entry> :| AdmittedLedger(s, h) && Records(h) == records && (h != [] ==> h[0].prior == start) {
      if h != [] {
        ReplayReproducesHistory(s, h);
      }
    }
    if AdmittedLedger(s, replayed) && replayed != [] {
      assert replayed[0].prior == start;
    }
  }

  // ---- append-only -----------------------------------------------------------------------------------

  /** No two records of an admitted ledger lead to the same frame. */
  lemma SuccessorsAreDistinct(s: Setup, entries: seq<Entry>, i: nat, j: nat)
    requires AdmittedLedger(s, entries) && i < j < |entries|
    ensures entries[i].successor != entries[j].successor
  {
    var earlier := SuccessorsOf(entries[..j]);
    assert entries[..j][i] in entries[..j];
    assert FrameEntry(entries[i].successor) in earlier;
    assert AdmittedAt(s, entries, j);
    assert exists e :: e in earlier && e.FrameEntry?;
  }

  /** Every record after the first moves a leg: the law, or a legend or schema it commits. */
  lemma LaterRecordsMove(s: Setup, entries: seq<Entry>, i: nat)
    requires AdmittedLedger(s, entries) && 0 < i < |entries|
    ensures entries[i].prior != entries[i].successor
    ensures var r := entries[i].record;
            || r.priorLawHash != r.successorLawHash
            || exists leg: Leg ::
                 CommittedSuccessor(r, leg) != "" && CommittedPrior(r, leg) != CommittedSuccessor(r, leg)
  {
    SuccessorsAreDistinct(s, entries, i - 1, i);
    AdmittedStep(s, entries, i);
    var r := entries[i].record;
    assert AdmittedAt(s, entries, i);
    assert CommittedSuccessor(r, Legend) == r.successorLegendHash && CommittedPrior(r, Legend) == r.priorLegendHash;
    assert CommittedSuccessor(r, Schema) == r.successorSchemaHash && CommittedPrior(r, Schema) == r.priorSchemaHash;
  }

  /** The frames of a history: where it started and where each record led. */
  ghost predicate FramesDistinct(entries: seq<Entry>) {
    && (forall i, j :: 0 <= i < j < |entries| ==> entries[i].successor != entries[j].successor)
    && (forall i :: 0 <= i < |entries| ==> entries[i].successor != entries[0].prior)
  }

  /** The start frame is nobody's successor, so one record may lead back to it; a second one may not. */
  lemma AtMostOneReturn(s: Setup, entries: seq<Entry>, i: nat, j: nat)
    requires AdmittedLedger(s, entries) && i < |entries| && j < |entries|
    requires entries[i].successor == entries[0].prior && entries[j].successor == entries[0].prior
    ensures i == j
  {
    if i != j {
      SuccessorsAreDistinct(s, entries, if i < j then i else j, if i < j then j else i);
    }
  }

  function SeedContext(x: Context, start: Frame): Context {
    x.(existing := x.existing + {FrameEntry(start)})
  }

  /** Counting the start among the frames already seen refuses the records that lead back to it, and no others. */
  lemma SeedingRefusesOnlyTheReturn(c: Crypto, r: AmendmentRecord, x: Context, start: Frame)
    requires forall e :: e in x.existing ==> e.FrameEntry?
    ensures x.successor != start ==> IsAdmissible(c, r, SeedContext(x, start)) == IsAdmissible(c, r, x)
    ensures x.successor == start ==> IsAdmissible(c, r, SeedContext(x, start)).Refused?
  {
    var y := SeedContext(x, start);
    assert FrameEntry(start) in y.existing;
    assert AuthorityVerdict(c, r, y) == AuthorityVerdict(c, r, x);
    if x.existing != {} {
      var e :| e in x.existing;
      assert e.FrameEntry?;
    }
  }

  /** Every record is admitted with the start frame counted among those already seen. */
  ghost predicate SeededLedger(s: Setup, entries: seq<Entry>) {
    forall i :: 0 <= i < |entries| ==>
                  IsAdmissible(s.crypto, entries[i].record, SeedContext(ContextAt(s, entries, i), entries[0].prior)).Admitted?
  }

  /** All frames of an admitted ledger, its start included, differ exactly when seeding would have admitted it too. */
  lemma FramesDistinctIffSeeded(s: Setup, entries: seq<Entry>)
    ensures SeededLedger(s, entries) <==> AdmittedLedger(s, entries) && FramesDistinct(entries)
  {
    forall i | 0 <= i < |entries|
      ensures IsAdmissible(s.crypto, entries[i].record,
                           SeedContext(ContextAt(s, entries, i), entries[0].prior)).Admitted? <==>
              AdmittedAt(s, entries, i) && entries[i].successor != entries[0].prior
    {
      SeedingRefusesOnlyTheReturn(s.crypto, entries[i].record, ContextAt(s, entries, i), entries[0].prior);
    }
    if AdmittedLedger(s, entries) {
      forall i, j | 0 <= i < j < |entries|
        ensures entries[i].successor != entries[j].successor
      {
        SuccessorsAreDistinct(s, entries, i, j);
      }
    }
  }

  /** What the records say of where a leg stands: the value committed last, if any. */
  function LastCommitted(records: seq<AmendmentRecord>, leg: Leg): Option<string> {
    if records == [] then None
    else
      var last := records[|records| - 1];
      if CommittedSuccessor(last, leg) != "" then Some(CommittedSuccessor(last, leg))
      else LastCommitted(records[..|records| - 1], leg)
  }

  /** The leg's last commit, if any, arrives at the value its first commit departed from. */
  predicate LegReturns(records: seq<AmendmentRecord>, leg: Leg) {
    var first, last := FirstMatch(records, Commits(leg)), LastCommitted(records, leg);
    first.Some? && last.Some? ==> last.value == CommittedPrior(first.value, leg)
  }

  /** Read off the records: record i arrives at the law and at the legs the ledger departed from. */
  predicate StatesReturn(records: seq<AmendmentRecord>, i: nat)
    requires i < |records|
  {
    && records[i].successorLawHash == records[0].priorLawHash
    && LegReturns(records[..i + 1], Legend) && LegReturns(records[..i + 1], Schema)
  }

  /** After the records so far, a leg has the value committed last, or else the one it started with. */
  lemma {:induction false} LegIsLastCommitted(entries: seq<Entry>, leg: Leg, i: nat)
    requires i < |entries| && Continuous(entries)
    ensures var last := LastCommitted(Records(entries)[..i + 1], leg);
            LegOf(entries[i].successor, leg) == if last.Some? then last.value else LegOf(entries[0].prior, leg)
  {
    var records := Records(entries);
    assert records[..i + 1][..i] == records[..i];
    if i > 0 {
      LegIsLastCommitted(entries, leg, i - 1);
    } else {
      assert LastCommitted(records[..0], leg) == None;
    }
  }

  lemma {:induction false} SomeLastIffSomeFirst(records: seq<AmendmentRecord>, leg: Leg)
    ensures LastCommitted(records, leg).Some? <==> FirstMatch(records, Commits(leg)).Some?
  {
    if records != [] {
      var init, last := records[..|records| - 1], records[|records| - 1];
      assert records == init + [last];
      SomeLastIffSomeFirst(init, leg);
      FirstMatchIsMember(records, Commits(leg));
      FirstMatchIsMember(init, Commits(leg));
      assert Commits(leg)(last) <==> CommittedSuccessor(last, leg) != "";
      assert last in records;
    }
  }

  lemma LegReturnsIff(s: Setup, entries: seq<Entry>, leg: Leg, i: nat)
    requires AdmittedLedger(s, entries) && i < |entries|
    ensures LegOf(entries[i].successor, leg) == LegOf(entries[0].prior, leg) <==>
            LegReturns(Records(entries)[..i + 1], leg)
  {
    var records := Records(entries)[..i + 1];
    AdmittedIsContinuous(s, entries);
    LegIsLastCommitted(entries, leg, i);
    SomeLastIffSomeFirst(records, leg);
    var k := FirstMatchPosition(records, Commits(leg));
    if FirstMatch(records, Commits(leg)).Some? {
      assert forall j :: 0 <= j <= i ==>
        (Commits(leg)(records[j]) <==> CommittedSuccessor(entries[j].record, leg) != "");
      FirstCommitStatesTheStart(s, entries, leg, k);
    }
  }

  /** Record i of an admitted ledger leads back to its start exactly when the records up to it say so. */
  lemma ReturnIffStated(s: Setup, entries: seq<Entry>, i: nat)
    requires AdmittedLedger(s, entries) && i < |entries|
    ensures entries[i].successor == entries[0].prior <==> StatesReturn(Records(entries), i)
  {
    LegReturnsIff(s, entries, Legend, i);
    LegReturnsIff(s, entries, Schema, i);
    AdmittedStep(s, entries, 0);
    AdmittedStep(s, entries, i);
  }

  /** So the frames of an admitted ledger are distinct, the start included, exactly when no record states a return. */
  lemma FramesDistinctIffNoReturnStated(s: Setup, entries: seq<Entry>)
    requires AdmittedLedger(s, entries)
    ensures FramesDistinct(entries) <==>
            forall i :: 0 <= i < |entries| ==> !StatesReturn(Records(entries), i)
  {
    forall i | 0 <= i < |entries|
      ensures entries[i].successor == entries[0].prior <==> StatesReturn(Records(entries), i)
    {
      ReturnIffStated(s, entries, i);
    }
    forall i, j | 0 <= i < j < |entries|
      ensures entries[i].successor != entries[j].successor
    {
      SuccessorsAreDistinct(s, entries, i, j);
    }
  }

  // ---- the archive ----------------------------------------------------------------------------------------

  class AmendmentArchive {
    var records: seq<AmendmentRecord>

    constructor ()
      ensures records == []
    {
      records := [];
    }

    method Append(record: AmendmentRecord)
      modifies this
      ensures records == old(records) + [record]
    {
      records := records + [record];
    }

    method RecordForTransition(prior: string, successor: string) returns (r: Option<AmendmentRecord>)
      ensures r == Transition(records, prior, successor)
      ensures r.None? ==> forall i :: 0 <= i < |records| ==>
                            !(records[i].priorLawHash == prior && records[i].successorLawHash == successor)
      ensures r.Some? ==> exists i ::
                && 0 <= i < |records| && r.value == records[i]
                && records[i].priorLawHash == prior && records[i].successorLawHash == successor
                && forall j :: 0 <= j < i ==>
                     !(records[j].priorLawHash == prior && records[j].successorLawHash == successor)
    {
      for i := 0 to |records|
        invariant Transition(records, prior, successor) == Transition(records[i..], prior, successor)
        invariant forall j :: 0 <= j < i ==>
                    !(records[j].priorLawHash == prior && records[j].successorLawHash == successor)
      {
        assert records[i..][1..] == records[i + 1..];
        if records[i].priorLawHash == prior && records[i].successorLawHash == successor {
          return Some(records[i]);
        }
      }
      r := None;
    }
  }

  /** The record leads from one law hash to the other. */
  function Connects(prior: string, successor: string): AmendmentRecord -> bool {
    (r: AmendmentRecord) => r.priorLawHash == prior && r.successorLawHash == successor
  }

  function Transition(records: seq<AmendmentRecord>, prior: string, successor: string): Option<AmendmentRecord> {
    FirstMatch(records, Connects(prior, successor))
  }

  predicate SameTransition(r: AmendmentRecord, t: AmendmentRecord) {
    r.priorLawHash == t.priorLawHash && r.successorLawHash == t.successorLawHash
  }

  /** Record k is the first of the ledger with the pair of law hashes of record i. */
  ghost predicate FirstOfTransition(entries: seq<Entry>, k: int, i: int) {
    && 0 <= k <= i < |entries| && SameTransition(entries[k].record, entries[i].record)
    && forall j :: 0 <= j < k ==> !SameTransition(entries[j].record, entries[i].record)
  }

  /**
   * In every admitted ledger, looking up the transition a record made finds some record, and finds that record
   * exactly when the first record with the same pair of law hashes is equal to it.
   */
  lemma LookupIsExactIff(s: Setup, entries: seq<Entry>, i: nat)
    requires AdmittedLedger(s, entries) && i < |entries|
    ensures var found := Transition(Records(entries), entries[i].prior.law, entries[i].successor.law);
            && found.Some?
            && (found == Some(entries[i].record) <==>
                forall k :: FirstOfTransition(entries, k, i) ==> entries[k].record == entries[i].record)
  {
    AdmittedStep(s, entries, i);
    var records, connects := Records(entries), Connects(entries[i].prior.law, entries[i].successor.law);
    var k := FirstMatchPosition(records, connects);
    assert connects(records[i]);
    assert forall j :: 0 <= j < |entries| ==>
      (connects(records[j]) <==> SameTransition(entries[j].record, entries[i].record));
    assert FirstOfTransition(entries, k, i);
  }

  /** If no record is repeated, the lookup is exact precisely when no earlier record has the same pair of law hashes. */
  lemma DistinctRecordsLookupIff(s: Setup, entries: seq<Entry>, i: nat)
    requires AdmittedLedger(s, entries) && NoDuplicates(Records(entries)) && i < |entries|
    ensures Transition(Records(entries), entries[i].prior.law, entries[i].successor.law) == Some(entries[i].record) <==>
            forall k :: 0 <= k < i ==> !SameTransition(entries[k].record, entries[i].record)
  {
    LookupIsExactIff(s, entries, i);
    var k := FirstMatchPosition(Records(entries), Connects(entries[i].record.priorLawHash, entries[i].record.successorLawHash));
    assert Connects(entries[i].record.priorLawHash, entries[i].record.successorLawHash)(Records(entries)[i]);
    assert SameTransition(entries[k].record, entries[i].record);
    assert FirstOfTransition(entries, k, i) by {
      forall j | 0 <= j < k
        ensures !SameTransition(entries[j].record, entries[i].record)
      {
        assert !Connects(entries[i].record.priorLawHash, entries[i].record.successorLawHash)(Records(entries)[j]);
      }
    }
    if k < i {
      assert Records(entries)[k] != Records(entries)[i];
    }
  }

  ghost predicate MovesOnlyLaw(entries: seq<Entry>) {
    forall i, leg :: 0 <= i < |entries| ==> CommittedSuccessor(entries[i].record, leg) == ""
  }

  /** While only the law moves no two records lead to the same law, so each transition's lookup finds its record. */
  lemma LawLedgerLookupIsExact(s: Setup, entries: seq<Entry>, i: nat)
    requires AdmittedLedger(s, entries) && MovesOnlyLaw(entries) && i < |entries|
    ensures Transition(Records(entries), entries[i].prior.law, entries[i].successor.law) == Some(entries[i].record)
    ensures forall k :: 0 <= k < |entries| && entries[k].record.successorLawHash == entries[i].successor.law ==> k == i
  {
    AdmittedIsContinuous(s, entries);
    forall k | 0 <= k < |entries| && k != i
      ensures entries[k].record.successorLawHash != entries[i].successor.law
    {
      LawFrameSharesLegs(s, entries, k);
      LawFrameSharesLegs(s, entries, i);
      SuccessorsAreDistinct(s, entries, if k < i then k else i, if k < i then i else k);
    }
    LookupIsExactIff(s, entries, i);
  }

  lemma LawFrameSharesLegs(s: Setup, entries: seq<Entry>, k: nat)
    requires AdmittedLedger(s, entries) && MovesOnlyLaw(entries) && k < |entries|
    ensures entries[k].successor.legend == entries[0].prior.legend
    ensures entries[k].successor.schema == entries[0].prior.schema
  {
    AdmittedIsContinuous(s, entries);
    UncommittedLegIsCarried(entries, Legend, k);
    UncommittedLegIsCarried(entries, Schema, k);
    assert CommittedSuccessor(entries[k].record, Legend) == "" && CommittedSuccessor(entries[k].record, Schema) == "";
  }

  // ---- the record-hash chain ------------------------------------------------------------------------------------

  /** The record verifies, and if it commits a predecessor hash, that is its predecessor's. */
  predicate ChainedAt(c: Crypto, records: seq<AmendmentRecord>, i: nat)
    requires i < |records|
  {
    && VerifyHash(c, records[i])
    && (records[i].priorAmendmentHash != "" ==>
          i > 0 && records[i].priorAmendmentHash == records[i - 1].amendmentHash)
  }

  ghost predicate HashChained(c: Crypto, records: seq<AmendmentRecord>) {
    forall i :: 0 <= i < |records| ==> ChainedAt(c, records, i)
  }

  lemma AdmittedIsHashChained(s: Setup, entries: seq<Entry>)
    requires AdmittedLedger(s, entries)
    ensures HashChained(s.crypto, Records(entries))
  {
    forall i | 0 <= i < |entries|
      ensures ChainedAt(s.crypto, Records(entries), i)
    {
      assert AdmittedAt(s, entries, i);
    }
  }

  /** The records from the head back to and including the first one that commits no predecessor hash. */
  function CommittedSuffix(records: seq<AmendmentRecord>): seq<AmendmentRecord> {
    if records == [] then []
    else
      var last := records[|records| - 1];
      if last.priorAmendmentHash == "" then [last] else CommittedSuffix(records[..|records| - 1]) + [last]
  }

  lemma ChainLink(c: Crypto, records: seq<AmendmentRecord>)
    requires HashChained(c, records) && records != [] && records[|records| - 1].priorAmendmentHash != ""
    ensures var init := records[..|records| - 1];
            && init != [] && HashChained(c, init)
            && records[|records| - 1].priorAmendmentHash == init[|init| - 1].amendmentHash
  {
    var init := records[..|records| - 1];
    assert ChainedAt(c, records, |records| - 1);
    forall i | 0 <= i < |init|
      ensures ChainedAt(c, init, i)
    {
      assert ChainedAt(c, records, i);
    }
  }

  /** Two chained ledgers with the same head hash agree on the whole committed suffix. */
  lemma {:induction false} SameHeadSameSuffix(c: Crypto, l1: seq<AmendmentRecord>, l2: seq<AmendmentRecord>)
    requires c.InjectiveDigest() && HashChained(c, l1) && HashChained(c, l2)
    requires l1 != [] && l2 != [] && l1[|l1| - 1].amendmentHash == l2[|l2| - 1].amendmentHash
    ensures CommittedSuffix(l1) == CommittedSuffix(l2)
  {
    var r1, r2 := l1[|l1| - 1], l2[|l2| - 1];
    assert ChainedAt(c, l1, |l1| - 1) && ChainedAt(c, l2, |l2| - 1);
    HashIdentifiesRecord(c, r1, r2);
    if r1.priorAmendmentHash != "" {
      ChainLink(c, l1);
      ChainLink(c, l2);
      SameHeadSameSuffix(c, l1[..|l1| - 1], l2[..|l2| - 1]);
    }
  }

  /** Every record after the first commits its predecessor. */
  predicate FullyChained(records: seq<AmendmentRecord>) {
    forall i :: 0 < i < |records| ==> records[i].priorAmendmentHash != ""
  }

  /** The committed suffix really is a suffix of the ledger. */
  lemma {:induction false} SuffixIsSuffix(records: seq<AmendmentRecord>)
    ensures |CommittedSuffix(records)| <= |records|
    ensures CommittedSuffix(records) == records[|records| - |CommittedSuffix(records)|..]
    ensures FullyChained(records) ==> CommittedSuffix(records) == records
  {
    if records != [] {
      var init := records[..|records| - 1];
      SuffixIsSuffix(init);
      assert records == init + [records[|records| - 1]];
    }
  }

  /** If every record after the first commits its predecessor, the head hash identifies the entire ledger. */
  lemma HeadHashIdentifiesLedger(c: Crypto, l1: seq<AmendmentRecord>, l2: seq<AmendmentRecord>)
    requires c.InjectiveDigest() && HashChained(c, l1) && HashChained(c, l2)
    requires FullyChained(l1) && FullyChained(l2)
    requires l1 != [] && l2 != []
    ensures l1[|l1| - 1].amendmentHash == l2[|l2| - 1].amendmentHash <==> l1 == l2
  {
    if l1[|l1| - 1].amendmentHash == l2[|l2| - 1].amendmentHash {
      SameHeadSameSuffix(c, l1, l2);
      SuffixIsSuffix(l1);
      SuffixIsSuffix(l2);
    }
  }

  // ---- chained ledgers repeat nothing -------------------------------------------------------------------------

  /** Two equal records would have equal predecessors, and so on back to a first record that has one. */
  lemma {:induction false} ChainedRecordsDiffer(c: Crypto, records: seq<AmendmentRecord>, i: nat, j: nat)
    requires c.InjectiveDigest() && HashChained(c, records) && FullyChained(records) && i < j < |records|
    ensures records[i] != records[j]
  {
    assert ChainedAt(c, records, i) && ChainedAt(c, records, j);
    if records[i] == records[j] {
      assert i > 0 && ChainedAt(c, records, i - 1) && ChainedAt(c, records, j - 1);
      HashIdentifiesRecord(c, records[i - 1], records[j - 1]);
      ChainedRecordsDiffer(c, records, i - 1, j - 1);
    }
  }

  /**
   * In an admitted ledger whose later records all commit their predecessor, the lookup of a transition is exact
   * precisely when no earlier record has the same pair of law hashes.
   */
  lemma ChainedLookupIff(s: Setup, entries: seq<Entry>, i: nat)
    requires AdmittedLedger(s, entries) && s.crypto.InjectiveDigest() && FullyChained(Records(entries))
    requires i < |entries|
    ensures Transition(Records(entries), entries[i].prior.law, entries[i].successor.law) == Some(entries[i].record) <==>
            forall k :: 0 <= k < i ==> !SameTransition(entries[k].record, entries[i].record)
  {
    var records := Records(entries);
    AdmittedIsHashChained(s, entries);
    forall k, j | 0 <= k < j < |records|
      ensures records[k] != records[j]
    {
      ChainedRecordsDiffer(s.crypto, records, k, j);
    }
    DistinctRecordsLookupIff(s, entries, i);
  }
}
