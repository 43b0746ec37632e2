/** A kernel session without interleaving: gate and append in one call, as the kernel runs them. */
module NamespaceSession {
  import opened Collections
  import opened Namespace
  import opened NamespaceProperties

  datatype Call = Call(request: Request, authority: Option<string>)

  /** The chain after a session of calls. */
  function Session(s: Setting, calls: seq<Call>): seq<Receipt> {
    if calls == [] then []
    else
      var last := calls[|calls| - 1];
      Executed(s, Session(s, calls[..|calls| - 1]), last.request, last.authority)
  }

  function StateAfter(s: Setting, chain: seq<Receipt>): State {
    Projection(s.canonicalize, chain)
  }

  lemma AdmitReceiptIsInert(s: Setting, chain: seq<Receipt>, who: string)
    ensures StateAfter(s, chain + [AdmitReceipt(who)]) == StateAfter(s, chain)
    ensures StateAfter(s, chain + [RefuseReceipt(who)]) == StateAfter(s, chain)
  {
    Snoc(s.canonicalize, chain, AdmitReceipt(who));
    Snoc(s.canonicalize, chain, RefuseReceipt(who));
  }

  lemma GateReadsOnlyState(s: Setting, chain: seq<Receipt>, other: seq<Receipt>, req: Request, authority: Option<string>)
    requires StateAfter(s, chain) == StateAfter(s, other)
    ensures Gate(s, chain, req, authority) == Gate(s, other, req, authority)
    ensures DelegatesOf(s.canonicalize, chain, req.name) == DelegatesOf(s.canonicalize, other, req.name)
  {
  }

  /**
   * One operation with an explicit authority changes the state exactly when it is admitted, unless it is a
   * claim or repeats a delegation. Refusals and protocol errors never change it.
   */
  lemma AdmittedMeansEffective(s: Setting, chain: seq<Receipt>, req: Request, authority: string)
    ensures var after := StateAfter(s, Executed(s, chain, req, Some(authority)));
            after != StateAfter(s, chain) <==>
            && OutcomeOf(s, chain, req, Some(authority)) == Done
            && !req.ClaimRequest?
            && (req.DelegateRequest? ==> req.delegateAuthority !in DelegatesOf(s.canonicalize, chain, req.name))
  {
    AdmitReceiptIsInert(s, chain, authority);
    var admitted := chain + [AdmitReceipt(authority)];
    GateReadsOnlyState(s, chain, admitted, req, Some(authority));
    GateAgreesWithFold(s, admitted, req, authority);
  }

  /** What each operation is for, as seen through the queries on the chains before and after it. */
  ghost predicate Does(s: Setting, before: seq<Receipt>, after: seq<Receipt>, req: Request, authority: string) {
    var c := s.canonicalize;
    var owner, delegates := OwnerOf(c, after, req.name), DelegatesOf(c, after, req.name);
    match req
    case ClaimRequest(_) => StateAfter(s, after) == StateAfter(s, before)
    case AllocateRequest(_) => owner == Some(authority) && delegates == []
    case DelegateRequest(_, d) =>
      var earlier := DelegatesOf(c, before, req.name);
      && owner == OwnerOf(c, before, req.name) == Some(authority)
      && delegates == (if d in earlier then earlier else earlier + [d])
      && HasAuthority(c, after, req.name, d)
    case RevokeRequest(_) => owner == None && delegates == [] && c(req.name) in StateAfter(s, after).revoked
    case InvalidateRequest(_) => owner == None && delegates == [] && c(req.name) in StateAfter(s, after).revoked
    case SupersedeRequest(_, heir) => owner == Some(heir) && delegates == []
    case AdjudicateRequest(_, award) => owner == Some(award) && delegates == []
  }

  lemma LandingDoes(s: Setting, chain: seq<Receipt>, req: Request, authority: string)
    requires Gate(s, chain, req, Some(authority))
    ensures Does(s, chain, chain + [ReceiptOf(s, req, authority)], req, authority)
  {
    Snoc(s.canonicalize, chain, ReceiptOf(s, req, authority));
    AlwaysConsistent(s.canonicalize, chain);
  }

  /** An admitted operation does what it is for to its own name, and leaves the view of every other name alone. */
  lemma AdmittedOperationDoesItsJob(s: Setting, chain: seq<Receipt>, req: Request, authority: string)
    requires OutcomeOf(s, chain, req, Some(authority)) == Done
    ensures Does(s, chain, Executed(s, chain, req, Some(authority)), req, authority)
    ensures forall n :: n != s.canonicalize(req.name) ==>
                          ViewOf(StateAfter(s, Executed(s, chain, req, Some(authority))), n) ==
                          ViewOf(StateAfter(s, chain), n)
  {
    var admitted, r := chain + [AdmitReceipt(authority)], ReceiptOf(s, req, authority);
    AdmitReceiptIsInert(s, chain, authority);
    GateReadsOnlyState(s, chain, admitted, req, Some(authority));
    LandingDoes(s, admitted, req, authority);
    SameStateSameJob(s, chain, admitted, admitted + [r], req, authority);
    Snoc(s.canonicalize, admitted, r);
    forall n | n != s.canonicalize(req.name)
      ensures ViewOf(StateAfter(s, admitted + [r]), n) == ViewOf(StateAfter(s, chain), n)
    {
      OtherNamesViewStays(s.canonicalize, StateAfter(s, admitted), r, |admitted|, n);
    }
  }

  lemma SameStateSameJob(s: Setting, before: seq<Receipt>, alike: seq<Receipt>, after: seq<Receipt>,
                         req: Request, authority: string)
    requires StateAfter(s, before) == StateAfter(s, alike)
    ensures Does(s, before, after, req, authority) == Does(s, alike, after, req, authority)
  {
  }

  /** Every allocation receipt written so far took effect when it was written. */
  ghost predicate AllocationsEffective(s: Setting, chain: seq<Receipt>) {
    forall i :: 0 <= i < |chain| && chain[i].op == Allocate && !chain[i].failed ==>
                  EffectiveAllocation(s.canonicalize, chain, i, CanonOf(s.canonicalize, chain[i]))
  }

  lemma EffectiveInLongerChain(s: Setting, chain: seq<Receipt>, r: Receipt, i: int, canon: string)
    requires EffectiveAllocation(s.canonicalize, chain, i, canon)
    ensures EffectiveAllocation(s.canonicalize, chain + [r], i, canon)
  {
    assert (chain + [r])[..i] == chain[..i] && (chain + [r])[..i + 1] == chain[..i + 1];
  }

  lemma AppendKeepsEffective(s: Setting, chain: seq<Receipt>, r: Receipt)
    requires AllocationsEffective(s, chain)
    requires r.op == Allocate && !r.failed ==>
               && CanonOf(s.canonicalize, r) !in StateAfter(s, chain).owners
               && CanonOf(s.canonicalize, r) in StateAfter(s, chain + [r]).owners
    ensures AllocationsEffective(s, chain + [r])
  {
    var longer := chain + [r];
    forall i | 0 <= i < |longer| && longer[i].op == Allocate && !longer[i].failed
      ensures EffectiveAllocation(s.canonicalize, longer, i, CanonOf(s.canonicalize, longer[i]))
    {
      if i < |chain| {
        EffectiveInLongerChain(s, chain, r, i, CanonOf(s.canonicalize, chain[i]));
      } else {
        assert longer[..i] == chain && longer[..i + 1] == longer;
      }
    }
  }

  lemma AdmittedAllocationTakesName(s: Setting, chain: seq<Receipt>, req: Request, authority: string)
    requires req.AllocateRequest? && Gate(s, chain, req, Some(authority))
    ensures var r := ReceiptOf(s, req, authority);
            && CanonOf(s.canonicalize, r) !in StateAfter(s, chain).owners
            && CanonOf(s.canonicalize, r) in StateAfter(s, chain + [r]).owners
  {
    Snoc(s.canonicalize, chain, ReceiptOf(s, req, authority));
  }

  lemma ExecutedKeepsEffective(s: Setting, chain: seq<Receipt>, call: Call)
    requires AllocationsEffective(s, chain)
    ensures AllocationsEffective(s, Executed(s, chain, call.request, call.authority))
  {
    var who := Resolved(s, call.authority);
    AppendKeepsEffective(s, chain, AdmitReceipt(who));
    AppendKeepsEffective(s, chain, RefuseReceipt(who));
    var admitted := chain + [AdmitReceipt(who)];
    if OutcomeOf(s, chain, call.request, call.authority) == Done {
      AdmitReceiptIsInert(s, chain, who);
      GateReadsOnlyState(s, chain, admitted, call.request, call.authority);
      if call.request.AllocateRequest? {
        AdmittedAllocationTakesName(s, admitted, call.request, who);
      }
      AppendKeepsEffective(s, admitted, ReceiptOf(s, call.request, who));
    }
  }

  lemma {:induction false} SessionAllocationsEffective(s: Setting, calls: seq<Call>)
    ensures AllocationsEffective(s, Session(s, calls))
  {
    if calls != [] {
      var init, last := calls[..|calls| - 1], calls[|calls| - 1];
      SessionAllocationsEffective(s, init);
      ExecutedKeepsEffective(s, Session(s, init), last);
    }
  }

  /** In any session a canonical name has at most one successful allocation receipt. */
  lemma OneSuccessfulAllocationPerName(s: Setting, calls: seq<Call>, i: int, j: int)
    requires var chain := Session(s, calls);
             && 0 <= i < |chain| && 0 <= j < |chain|
             && chain[i].op == Allocate && !chain[i].failed && chain[j].op == Allocate && !chain[j].failed
             && CanonOf(s.canonicalize, chain[i]) == CanonOf(s.canonicalize, chain[j])
    ensures i == j
  {
    SessionAllocationsEffective(s, calls);
    var chain := Session(s, calls);
    AtMostOneEffectiveAllocation(s.canonicalize, chain, i, j, CanonOf(s.canonicalize, chain[i]));
  }
}
