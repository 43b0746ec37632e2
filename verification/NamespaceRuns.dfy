/**
 * Operations interleaved: other receipts may land between a gate's decision and the append of its receipt.
 */
module NamespaceRuns {
  import opened Collections
  import opened Namespace
  import opened NamespaceProperties

  /** An operation whose gate has said yes and whose receipt is not yet in the chain. */
  datatype Admitted = Admitted(request: Request, authority: string)

  datatype World = World(chain: seq<Receipt>, pending: multiset<Admitted>)

  datatype Step =
    | Decide(request: Request, authority: Option<string>)  // evaluate the gate now
    | Land(admitted: Admitted)                             // append a receipt admitted some time ago
    | Foreign(receipt: Receipt)                            // any receipt written without these gates

  predicate Enabled(w: World, step: Step) {
    match step
    case Decide(_, authority) => authority != Some("")
    case Land(a) => a in w.pending
    case Foreign(_) => true
  }

  function Next(s: Setting, w: World, step: Step): World {
    match step
    case Decide(req, authority) =>
      var who := Resolved(s, authority);
      if Gate(s, w.chain, req, authority)
      then World(w.chain + [AdmitReceipt(who)], w.pending + multiset{Admitted(req, who)})
      else w.(chain := w.chain + [RefuseReceipt(who)])
    case Land(a) => World(w.chain + [ReceiptOf(s, a.request, a.authority)], w.pending - multiset{a})
    case Foreign(r) => w.(chain := w.chain + [r])
  }

  /** The receipt a step appends. */
  function Appended(s: Setting, w: World, step: Step): (r: Receipt)
    ensures Next(s, w, step).chain == w.chain + [r]
  {
    match step
    case Decide(req, authority) =>
      if Gate(s, w.chain, req, authority) then AdmitReceipt(Resolved(s, authority))
      else RefuseReceipt(Resolved(s, authority))
    case Land(a) => ReceiptOf(s, a.request, a.authority)
    case Foreign(r) => r
  }

  function Run(s: Setting, steps: seq<Step>): World {
    if steps == [] then World([], multiset{})
    else Next(s, Run(s, steps[..|steps| - 1]), steps[|steps| - 1])
  }

  ghost predicate Legal(s: Setting, steps: seq<Step>) {
    forall i :: 0 <= i < |steps| ==> Enabled(Run(s, steps[..i]), steps[i])
  }

  lemma LegalPrefix(s: Setting, steps: seq<Step>)
    requires Legal(s, steps) && steps != []
    ensures Legal(s, steps[..|steps| - 1]) && Enabled(Run(s, steps[..|steps| - 1]), steps[|steps| - 1])
  {
    var init := steps[..|steps| - 1];
    forall i | 0 <= i < |init|
      ensures Enabled(Run(s, init[..i]), init[i])
    {
      assert init[..i] == steps[..i];
    }
  }

  // ---- the Governor check is made by the gate alone ----------------------------------------------------

  predicate GovernorsOwn(s: Setting, authority: string) {
    s.governor != "" && authority == s.governor
  }

  /** An adjudication that counts carries the Governor's authority. */
  predicate AwardIsGovernors(s: Setting, r: Receipt) {
    !r.failed && r.op == Adjudicate ==> GovernorsOwn(s, r.authority)
  }

  ghost predicate PendingAwardsAreGovernors(s: Setting, w: World) {
    forall a :: a in w.pending && a.request.AdjudicateRequest? ==> GovernorsOwn(s, a.authority)
  }

  ghost predicate AwardsAreGovernors(s: Setting, chain: seq<Receipt>) {
    forall i :: 0 <= i < |chain| ==> AwardIsGovernors(s, chain[i])
  }

  /** No foreign step of the run wrote an award of anybody but the Governor. */
  ghost predicate ForeignAwardsAreGovernors(s: Setting, steps: seq<Step>) {
    forall i :: 0 <= i < |steps| && steps[i].Foreign? ==> AwardIsGovernors(s, steps[i].receipt)
  }

  lemma AwardsSnoc(s: Setting, chain: seq<Receipt>, r: Receipt)
    ensures AwardsAreGovernors(s, chain + [r]) <==> AwardsAreGovernors(s, chain) && AwardIsGovernors(s, r)
  {
    assert (chain + [r])[|chain|] == r;
    assert forall i :: 0 <= i < |chain| ==> (chain + [r])[i] == chain[i];
  }

  lemma ForeignAwardsSnoc(s: Setting, steps: seq<Step>, step: Step)
    ensures ForeignAwardsAreGovernors(s, steps + [step]) <==>
            ForeignAwardsAreGovernors(s, steps) && (step.Foreign? ==> AwardIsGovernors(s, step.receipt))
  {
    assert (steps + [step])[|steps|] == step;
    assert forall i :: 0 <= i < |steps| ==> (steps + [step])[i] == steps[i];
  }

  /** Whatever else is written, every adjudication waiting to land was admitted for the Governor. */
  lemma {:induction false} EveryPendingAwardIsGovernors(s: Setting, steps: seq<Step>)
    requires Legal(s, steps)
    ensures PendingAwardsAreGovernors(s, Run(s, steps))
  {
    if steps != [] {
      LegalPrefix(s, steps);
      EveryPendingAwardIsGovernors(s, steps[..|steps| - 1]);
    }
  }

  /** A step of the gated operations never appends an award of anybody but the Governor. */
  lemma GatedStepAwards(s: Setting, w: World, step: Step)
    requires PendingAwardsAreGovernors(s, w) && Enabled(w, step)
    ensures !step.Foreign? ==> AwardIsGovernors(s, Appended(s, w, step))
  {
    if step.Land? {
      assert step.admitted in w.pending;
    }
  }

  /** In every run, the chain holds only the Governor's awards exactly when the foreign receipts do. */
  lemma {:induction false} EveryAwardIsGovernorsIff(s: Setting, steps: seq<Step>)
    requires Legal(s, steps)
    ensures AwardsAreGovernors(s, Run(s, steps).chain) <==> ForeignAwardsAreGovernors(s, steps)
  {
    if steps != [] {
      var init, step := steps[..|steps| - 1], steps[|steps| - 1];
      LegalPrefix(s, steps);
      EveryAwardIsGovernorsIff(s, init);
      EveryPendingAwardIsGovernors(s, init);
      var w := Run(s, init);
      GatedStepAwards(s, w, step);
      AwardsSnoc(s, w.chain, Appended(s, w, step));
      ForeignAwardsSnoc(s, init, step);
      assert steps == init + [step];
      assert Run(s, steps).chain == w.chain + [Appended(s, w, step)];
    }
  }

  // ---- what every interleaving keeps ---------------------------------------------------------------------

  function StateOf(s: Setting, w: World): State {
    Projection(s.canonicalize, w.chain)
  }

  /**
   * Whatever is written between a decision and its landing, gated or not, in every reachable world the state is
   * consistent, and the next receipt leaves an owned name's record alone unless it is a removal or transfer on
   * the then-current owner's authority, or an award. An award that came through the gate is the Governor's.
   */
  lemma StaleGatesAreHarmless(s: Setting, steps: seq<Step>, step: Step, canon: string)
    requires Legal(s, steps) && Enabled(Run(s, steps), step)
    ensures var w := Run(s, steps);
            var w' := Next(s, w, step);
            && Consistent(StateOf(s, w), |w.chain|)
            && (canon in StateOf(s, w).owners ==>
                  var o, r := StateOf(s, w).owners[canon], Appended(s, w, step);
                  || (canon in StateOf(s, w').owners && StateOf(s, w').owners[canon] == o)
                  || OwnersAct(s.canonicalize, r, canon, o.owner)
                  || (Award(s.canonicalize, r, canon) && (step.Foreign? || GovernorsOwn(s, r.authority))))
  {
    var w := Run(s, steps);
    AlwaysConsistent(s.canonicalize, w.chain);
    EveryPendingAwardIsGovernors(s, steps);
    GatedStepAwards(s, w, step);
    if canon in StateOf(s, w).owners {
      OnlyOwnerOrAwardChanges(s.canonicalize, w.chain, Appended(s, w, step), canon);
    }
  }

  /** Deciding changes nothing, whether it admits or refuses. */
  lemma DecidingChangesNothing(s: Setting, w: World, step: Step)
    requires Enabled(w, step) && step.Decide?
    ensures StateOf(s, Next(s, w, step)) == StateOf(s, w)
  {
    Snoc(s.canonicalize, w.chain, Appended(s, w, step));
  }

  /**
   * The fold re-checks what the gate checked: if landing a receipt changes the state, the gate would admit the
   * same request again on the chain as it is at that moment.
   */
  lemma LandingIsAsIfDecidedNow(s: Setting, steps: seq<Step>, a: Admitted)
    requires Legal(s, steps) && a in Run(s, steps).pending
    requires var w := Run(s, steps); StateOf(s, Next(s, w, Land(a))) != StateOf(s, w)
    ensures Gate(s, Run(s, steps).chain, a.request, Some(a.authority))
  {
    EveryPendingAwardIsGovernors(s, steps);
    var w := Run(s, steps);
    assert a in w.pending;
    assert Changes(s, w.chain, a.request, a.authority);
    GateAgreesWithFold(s, w.chain, a.request, a.authority);
  }

  /**
   * Two callers may both be admitted to allocate a free name before either receipt lands (within one session
   * they cannot). Both receipts then land, and the one that lands first keeps the name.
   */
  lemma FirstLandingKeepsTheName(s: Setting, w: World, name: string, a: string, b: string)
    requires a != "" && b != "" && Gate(s, w.chain, AllocateRequest(name), Some(a))
    ensures var first, second := Admitted(AllocateRequest(name), a), Admitted(AllocateRequest(name), b);
            var both := Next(s, Next(s, w, Decide(first.request, Some(a))), Decide(second.request, Some(b)));
            var landed := Next(s, Next(s, both, Land(first)), Land(second));
            && multiset{first, second} <= both.pending
            && OwnerOf(s.canonicalize, landed.chain, name) == Some(a)
  {
    var first, second := Admitted(AllocateRequest(name), a), Admitted(AllocateRequest(name), b);
    var one := Next(s, w, Decide(first.request, Some(a)));
    DecidingChangesNothing(s, w, Decide(first.request, Some(a)));
    DecidingChangesNothing(s, one, Decide(second.request, Some(b)));
    var both := Next(s, one, Decide(second.request, Some(b)));
    LandedAllocation(s, both.chain, name, a);
    var owned := both.chain + [ReceiptOf(s, first.request, a)];
    OnlyOwnerOrAwardChanges(s.canonicalize, owned, ReceiptOf(s, second.request, b), s.canonicalize(name));
  }

  lemma LandedAllocation(s: Setting, chain: seq<Receipt>, name: string, a: string)
    requires Gate(s, chain, AllocateRequest(name), Some(a))
    ensures OwnerOf(s.canonicalize, chain + [ReceiptOf(s, AllocateRequest(name), a)], name) == Some(a)
  {
    Snoc(s.canonicalize, chain, ReceiptOf(s, AllocateRequest(name), a));
  }

  /** The chain only grows, so an earlier world's chain is a prefix of every later one's. */
  lemma {:induction false} ChainOnlyGrows(s: Setting, steps: seq<Step>, later: seq<Step>)
    ensures Run(s, steps).chain <= Run(s, steps + later).chain
  {
    if later == [] {
      assert steps + later == steps;
    } else {
      var init, step := later[..|later| - 1], later[|later| - 1];
      ChainOnlyGrows(s, steps, init);
      AppendSnoc(steps, later);
      var r := Appended(s, Run(s, steps + init), step);
      assert Run(s, steps + later).chain == Run(s, steps + init).chain + [r];
    }
  }

  /** A removed name stays unowned in every later world of every interleaving. */
  lemma RemovedForGood(s: Setting, steps: seq<Step>, later: seq<Step>, canon: string)
    requires canon in StateOf(s, Run(s, steps)).revoked
    ensures canon !in StateOf(s, Run(s, steps + later)).owners
  {
    ChainOnlyGrows(s, steps, later);
    var chain, longer := Run(s, steps).chain, Run(s, steps + later).chain;
    assert longer == chain + longer[|chain|..];
    RemovalIsPermanent(s.canonicalize, chain, longer[|chain|..], canon);
  }
}
