/** Namespace ownership: a fold over the receipt chain, and the gates that re-run it (ugk/namespace_governance.py). */
module Namespace {
  import opened Collections

  datatype Op = Claim | Allocate | Delegate | Revoke | Invalidate | Supersede | Adjudicate | Other(name: string)

  /** The parameters the fold reads; an absent key is None. */
  datatype Params = Params(
    canonical: Option<string>,
    name: Option<string>,
    delegateAuthority: Option<string>,
    newOwner: Option<string>,
    awardedOwner: Option<string>)

  datatype Receipt = Receipt(op: Op, authority: string, params: Params, failed: bool)

  /** Deterministic canonical form, otherwise arbitrary. */
  type Canonicalizer = string -> string

  datatype Ownership = Ownership(owner: string, name: string, index: nat)

  datatype State = State(
    owners: map<string, Ownership>,
    revoked: set<string>,
    delegates: map<string, seq<string>>)

  const EMPTY := State(map[], {}, map[])

  function OrEmpty(o: Option<string>): string {
    if o.Some? then o.value else ""
  }

  function CanonOf(c: Canonicalizer, r: Receipt): string {
    if OrEmpty(r.params.canonical) != "" then r.params.canonical.value else c(OrEmpty(r.params.name))
  }

  predicate OwnedBy(st: State, canon: string, authority: string) {
    canon in st.owners && st.owners[canon].owner == authority
  }

  function DelegatesIn(st: State, canon: string): seq<string> {
    if canon in st.delegates then st.delegates[canon] else []
  }

  /** One receipt folded at position `index`. */
  function Apply(c: Canonicalizer, st: State, r: Receipt, index: nat): State {
    var canon := CanonOf(c, r);
    if r.failed || canon == "" then st
    else
      match r.op
      case Allocate =>
        if canon in st.owners || canon in st.revoked then st
        else st.(owners := st.owners[canon := Ownership(r.authority, OrEmpty(r.params.name), index)])
      case Delegate =>
        var d := OrEmpty(r.params.delegateAuthority);
        if !OwnedBy(st, canon, r.authority) || d == "" then st
        else
          var granted := DelegatesIn(st, canon);
          st.(delegates := st.delegates[canon := if d in granted then granted else granted + [d]])
      case Revoke => Removed(st, canon, r.authority)
      case Invalidate => Removed(st, canon, r.authority)
      case Supersede =>
        var heir := OrEmpty(r.params.newOwner);
        if !OwnedBy(st, canon, r.authority) || heir == "" then st
        else Handed(st, canon, Ownership(heir, OrEmpty(r.params.name), index))
      case Adjudicate =>
        var award := OrEmpty(r.params.awardedOwner);
        if award == "" || canon in st.revoked then st
        else Handed(st, canon, Ownership(award, OrEmpty(r.params.name), index))
      case Claim => st
      case Other(_) => st
  }

  function Removed(st: State, canon: string, authority: string): State {
    if !OwnedBy(st, canon, authority) then st
    else State(st.owners - {canon}, st.revoked + {canon}, st.delegates - {canon})
  }

  function Handed(st: State, canon: string, to: Ownership): State {
    st.(owners := st.owners[canon := to], delegates := st.delegates - {canon})
  }

  /** The namespace state of a chain. */
  function Projection(c: Canonicalizer, chain: seq<Receipt>): State {
    if chain == [] then EMPTY
    else
      var last := |chain| - 1;
      Apply(c, Projection(c, chain[..last]), chain[last], last)
  }

  method Project(c: Canonicalizer, chain: seq<Receipt>) returns (st: State)
    ensures st == Projection(c, chain)
  {
    var owners: map<string, Ownership> := map[];
    var revoked: set<string> := {};
    var delegates: map<string, seq<string>> := map[];
    for i := 0 to |chain|
      invariant State(owners, revoked, delegates) == Projection(c, chain[..i])
    {
      assert chain[..i + 1][..i] == chain[..i];
      var r := chain[i];
      if r.failed {
        continue;
      }
      var canon := CanonOf(c, r);
      if canon == "" {
        continue;
      }
      match r.op
      case Allocate =>
        if canon !in owners && canon !in revoked {
          owners := owners[canon := Ownership(r.authority, OrEmpty(r.params.name), i)];
        }
      case Delegate =>
        var da := OrEmpty(r.params.delegateAuthority);
        if canon in owners && r.authority == owners[canon].owner && da != "" {
          if canon !in delegates {
            delegates := delegates[canon := []];
          }
          if da !in delegates[canon] {
            delegates := delegates[canon := delegates[canon] + [da]];
          }
        }
      case Revoke =>
        if canon in owners && r.authority == owners[canon].owner {
          owners, revoked, delegates := owners - {canon}, revoked + {canon}, delegates - {canon};
        }
      case Invalidate =>
        if canon in owners && r.authority == owners[canon].owner {
          owners, revoked, delegates := owners - {canon}, revoked + {canon}, delegates - {canon};
        }
      case Supersede =>
        var heir := OrEmpty(r.params.newOwner);
        if canon in owners && r.authority == owners[canon].owner && heir != "" {
          owners := owners[canon := Ownership(heir, OrEmpty(r.params.name), i)];
          delegates := delegates - {canon};
        }
      case Adjudicate =>
        var award := OrEmpty(r.params.awardedOwner);
        if award != "" && canon !in revoked {
          owners := owners[canon := Ownership(award, OrEmpty(r.params.name), i)];
          delegates := delegates - {canon};
        }
      case Claim =>
      case Other(_) =>
    }
    assert chain[..|chain|] == chain;
    st := State(owners, revoked, delegates);
  }

  // ---- queries ------------------------------------------------------------------------------

  function OwnerOf(c: Canonicalizer, chain: seq<Receipt>, name: string): Option<string> {
    var st := Projection(c, chain);
    if c(name) in st.owners then Some(st.owners[c(name)].owner) else None
  }

  function DelegatesOf(c: Canonicalizer, chain: seq<Receipt>, name: string): seq<string> {
    DelegatesIn(Projection(c, chain), c(name))
  }

  predicate HasAuthority(c: Canonicalizer, chain: seq<Receipt>, name: string, authority: string) {
    OwnerOf(c, chain, name) == Some(authority) || authority in DelegatesOf(c, chain, name)
  }

  // ---- operations: a gate, and the receipt written when it admits ------------------------------

  datatype Request =
    | ClaimRequest(name: string)
    | AllocateRequest(name: string)
    | DelegateRequest(name: string, delegateAuthority: string)
    | RevokeRequest(name: string)
    | InvalidateRequest(name: string)
    | SupersedeRequest(name: string, newOwner: string)
    | AdjudicateRequest(name: string, awardedOwner: string)
  {
    /** The arguments the gate insists on being non-empty. */
    predicate WellFormed(c: Canonicalizer) {
      && c(name) != ""
      && (DelegateRequest? ==> delegateAuthority != "")
      && (SupersedeRequest? ==> newOwner != "")
      && (AdjudicateRequest? ==> awardedOwner != "")
    }
  }

  /** What a kernel fixes: canonicalization, its mosaic root (the Governor) and its own authority. */
  datatype Setting = Setting(canonicalize: Canonicalizer, governor: string, kernelAuthority: string)

  /** The admissibility gate. The authority is the caller's argument as passed, so it may be absent. */
  predicate Gate(s: Setting, chain: seq<Receipt>, req: Request, authority: Option<string>) {
    && req.WellFormed(s.canonicalize)
    && match req
       case ClaimRequest(_) => true
       case AllocateRequest(name) =>
         var st := Projection(s.canonicalize, chain);
         s.canonicalize(name) !in st.owners && s.canonicalize(name) !in st.revoked
       case DelegateRequest(name, _) => OwnerOf(s.canonicalize, chain, name) == authority
       case RevokeRequest(name) => OwnerOf(s.canonicalize, chain, name) == authority
       case InvalidateRequest(name) => OwnerOf(s.canonicalize, chain, name) == authority
       case SupersedeRequest(name, _) => OwnerOf(s.canonicalize, chain, name) == authority
       case AdjudicateRequest(name, _) =>
         && s.governor != "" && authority == Some(s.governor)
         && s.canonicalize(name) !in Projection(s.canonicalize, chain).revoked
  }

  /** The authority a receipt carries: the kernel's own when the caller passed none. */
  function Resolved(s: Setting, authority: Option<string>): string {
    if authority.Some? then authority.value else s.kernelAuthority
  }

  function ReceiptOf(s: Setting, req: Request, authority: string): Receipt {
    var base := Params(Some(s.canonicalize(req.name)), Some(req.name), None, None, None);
    match req
    case ClaimRequest(_) => Receipt(Claim, authority, base, false)
    case AllocateRequest(_) => Receipt(Allocate, authority, base, false)
    case DelegateRequest(_, d) => Receipt(Delegate, authority, base.(delegateAuthority := Some(d)), false)
    case RevokeRequest(_) => Receipt(Revoke, authority, base, false)
    case InvalidateRequest(_) => Receipt(Invalidate, authority, base, false)
    case SupersedeRequest(_, o) => Receipt(Supersede, authority, base.(newOwner := Some(o)), false)
    case AdjudicateRequest(_, o) => Receipt(Adjudicate, authority, base.(awardedOwner := Some(o)), false)
  }

  const NO_PARAMS := Params(None, None, None, None, None)

  function AdmitReceipt(authority: string): Receipt {
    Receipt(Other("gate_admit"), authority, NO_PARAMS, false)
  }

  function RefuseReceipt(authority: string): Receipt {
    Receipt(Other("gate_refuse"), authority, NO_PARAMS, true)
  }

  datatype Outcome = Done | GateRefusal | ProtocolError

  function OutcomeOf(s: Setting, chain: seq<Receipt>, req: Request, authority: Option<string>): Outcome {
    if authority == Some("") then ProtocolError
    else if Gate(s, chain, req, authority) then Done
    else GateRefusal
  }

  /** The chain after one governed operation. */
  function Executed(s: Setting, chain: seq<Receipt>, req: Request, authority: Option<string>): seq<Receipt> {
    var who := Resolved(s, authority);
    match OutcomeOf(s, chain, req, authority)
    case ProtocolError => chain
    case GateRefusal => chain + [RefuseReceipt(who)]
    case Done => (chain + [AdmitReceipt(who)]) + [ReceiptOf(s, req, who)]
  }

  class Kernel {
    const setting: Setting
    var receipts: seq<Receipt>

    constructor (s: Setting)
      ensures setting == s && receipts == []
    {
      setting, receipts := s, [];
    }

    /** One governed operation, gate and append together. */
    method Execute(req: Request, authority: Option<string>) returns (outcome: Outcome)
      modifies this`receipts
      ensures outcome == OutcomeOf(setting, old(receipts), req, authority)
      ensures receipts == Executed(setting, old(receipts), req, authority)
      ensures outcome == ProtocolError <==> authority == Some("")
      ensures outcome == Done <==> authority != Some("") && Gate(setting, old(receipts), req, authority)
      ensures outcome == ProtocolError ==> receipts == old(receipts)
      ensures var who := if authority.Some? then authority.value else setting.kernelAuthority;
              var nothing := Params(None, None, None, None, None);
              && (outcome == GateRefusal ==>
                    receipts == old(receipts) + [Receipt(Other("gate_refuse"), who, nothing, true)])
              && (outcome == Done ==>
                    && |receipts| == |old(receipts)| + 2 && receipts[..|old(receipts)|] == old(receipts)
                    && receipts[|old(receipts)|] == Receipt(Other("gate_admit"), who, nothing, false)
                    && var landed := receipts[|old(receipts)| + 1];
                       var canonical, name := Some(setting.canonicalize(req.name)), Some(req.name);
                       match req
                       case ClaimRequest(_) =>
                         landed == Receipt(Claim, who, Params(canonical, name, None, None, None), false)
                       case AllocateRequest(_) =>
                         landed == Receipt(Allocate, who, Params(canonical, name, None, None, None), false)
                       case DelegateRequest(_, d) =>
                         landed == Receipt(Delegate, who, Params(canonical, name, Some(d), None, None), false)
                       case RevokeRequest(_) =>
                         landed == Receipt(Revoke, who, Params(canonical, name, None, None, None), false)
                       case InvalidateRequest(_) =>
                         landed == Receipt(Invalidate, who, Params(canonical, name, None, None, None), false)
                       case SupersedeRequest(_, heir) =>
                         landed == Receipt(Supersede, who, Params(canonical, name, None, Some(heir), None), false)
                       case AdjudicateRequest(_, award) =>
                         landed == Receipt(Adjudicate, who, Params(canonical, name, None, None, Some(award)), false))
    {
      if authority == Some("") {
        return ProtocolError;
      }
      var who := Resolved(setting, authority);
      if !Gate(setting, receipts, req, authority) {
        receipts := receipts + [RefuseReceipt(who)];
        return GateRefusal;
      }
      receipts := receipts + [AdmitReceipt(who)];
      receipts := receipts + [ReceiptOf(setting, req, who)];
      outcome := Done;
    }

    /** The current owner, by a fresh projection of the chain. */
    method Owner(name: string) returns (owner: Option<string>)
      ensures owner == OwnerOf(setting.canonicalize, receipts, name)
    {
      var st := Project(setting.canonicalize, receipts);
      var canon := setting.canonicalize(name);
      owner := if canon in st.owners then Some(st.owners[canon].owner) else None;
    }
  }
}
