/** Properties of the ownership fold over every chain: consistency, provenance, permanence, locality, gate agreement. */
module NamespaceProperties {
  import opened Collections
  import opened Namespace

  // ---- consistency -----------------------------------------------------------------------

  ghost predicate Consistent(st: State, length: nat) {
    && st.owners.Keys !! st.revoked
    && st.delegates.Keys <= st.owners.Keys
    && (forall n :: n in st.owners ==> st.owners[n].index < length)
    && (forall n :: n in st.delegates ==> NoDuplicates(st.delegates[n]) && "" !in st.delegates[n])
    && "" !in st.owners && "" !in st.revoked
  }

  lemma ConsistentStep(c: Canonicalizer, st: State, r: Receipt, index: nat)
    requires Consistent(st, index)
    ensures Consistent(Apply(c, st, r, index), index + 1)
  {
  }

  /** No name is both owned and revoked, only owned names have delegates, delegates are listed once. */
  lemma {:induction false} AlwaysConsistent(c: Canonicalizer, chain: seq<Receipt>)
    ensures Consistent(Projection(c, chain), |chain|)
  {
    if chain != [] {
      var last := |chain| - 1;
      AlwaysConsistent(c, chain[..last]);
      ConsistentStep(c, Projection(c, chain[..last]), chain[last], last);
    }
  }

  lemma Snoc(c: Canonicalizer, chain: seq<Receipt>, r: Receipt)
    ensures Projection(c, chain + [r]) == Apply(c, Projection(c, chain), r, |chain|)
  {
    assert (chain + [r])[..|chain|] == chain;
  }

  lemma ApplyExact(c: Canonicalizer, st: State, r: Receipt, index: nat)
    requires Consistent(st, index)
    ensures var after := Apply(c, st, r, index);
            var p := r.params;
            var name := if p.name.Some? then p.name.value else "";
            var canon := if p.canonical.Some? && p.canonical.value != "" then p.canonical.value else c(name);
            var owner := if canon in st.owners then Some(st.owners[canon].owner) else None;
            var signer := Some(r.authority);
            && var acts :=
                 && !r.failed && canon != ""
                 && (|| (r.op.Allocate? && owner.None? && canon !in st.revoked)
                     || (r.op.Delegate? && owner == signer
                         && p.delegateAuthority.Some? && p.delegateAuthority.value != "")
                     || ((r.op.Revoke? || r.op.Invalidate?) && owner == signer)
                     || (r.op.Supersede? && owner == signer && p.newOwner.Some? && p.newOwner.value != "")
                     || (r.op.Adjudicate? && canon !in st.revoked
                         && p.awardedOwner.Some? && p.awardedOwner.value != ""));
               && (!acts ==> after == st)
               && (acts ==> match r.op
                   case Allocate =>
                     && canon in after.owners && after.owners[canon] == Ownership(r.authority, name, index)
                     && canon !in after.revoked && DelegatesIn(after, canon) == []
                   case Delegate =>
                     && canon in after.owners && after.owners[canon] == st.owners[canon] && canon !in after.revoked
                     && DelegatesIn(after, canon) ==
                        (if p.delegateAuthority.value in DelegatesIn(st, canon) then DelegatesIn(st, canon)
                         else DelegatesIn(st, canon) + [p.delegateAuthority.value])
                   case Supersede =>
                     && canon in after.owners && after.owners[canon] == Ownership(p.newOwner.value, name, index)
                     && canon !in after.revoked && DelegatesIn(after, canon) == []
                   case Adjudicate =>
                     && canon in after.owners && after.owners[canon] == Ownership(p.awardedOwner.value, name, index)
                     && canon !in after.revoked && DelegatesIn(after, canon) == []
                   case _ => canon !in after.owners && canon in after.revoked && DelegatesIn(after, canon) == [])
  {
  }

  lemma OtherRecordsStay(c: Canonicalizer, st: State, r: Receipt, index: nat, n: string)
    requires n != CanonOf(c, r)
    ensures var after := Apply(c, st, r, index);
            && (n in after.owners <==> n in st.owners) && (n in st.owners ==> after.owners[n] == st.owners[n])
            && (n in after.revoked <==> n in st.revoked)
            && DelegatesIn(after, n) == DelegatesIn(st, n)
  {
  }

  /**
   * What one more receipt does, read off its own fields: failed, nameless and other receipts do nothing; any
   * other acts on the record of its name alone, as its operation says.
   */
  lemma NextReceiptExact(c: Canonicalizer, chain: seq<Receipt>, r: Receipt)
    ensures var st, after := Projection(c, chain), Projection(c, chain + [r]);
            var p := r.params;
            var name := if p.name.Some? then p.name.value else "";
            var canon := if p.canonical.Some? && p.canonical.value != "" then p.canonical.value else c(name);
            var owner := if canon in st.owners then Some(st.owners[canon].owner) else None;
            var signer := Some(r.authority);
            && (forall n :: n != canon ==>
                  && (n in after.owners <==> n in st.owners) && (n in st.owners ==> after.owners[n] == st.owners[n])
                  && (n in after.revoked <==> n in st.revoked)
                  && DelegatesIn(after, n) == DelegatesIn(st, n))
            && var acts :=
                 && !r.failed && canon != ""
                 && (|| (r.op.Allocate? && owner.None? && canon !in st.revoked)
                     || (r.op.Delegate? && owner == signer
                         && p.delegateAuthority.Some? && p.delegateAuthority.value != "")
                     || ((r.op.Revoke? || r.op.Invalidate?) && owner == signer)
                     || (r.op.Supersede? && owner == signer && p.newOwner.Some? && p.newOwner.value != "")
                     || (r.op.Adjudicate? && canon !in st.revoked
                         && p.awardedOwner.Some? && p.awardedOwner.value != ""));
               && (!acts ==> after == st)
               && (acts ==> match r.op
                   case Allocate =>
                     && canon in after.owners && after.owners[canon] == Ownership(r.authority, name, |chain|)
                     && canon !in after.revoked && DelegatesIn(after, canon) == []
                   case Delegate =>
                     && canon in after.owners && after.owners[canon] == st.owners[canon] && canon !in after.revoked
                     && DelegatesIn(after, canon) ==
                        (if p.delegateAuthority.value in DelegatesIn(st, canon) then DelegatesIn(st, canon)
                         else DelegatesIn(st, canon) + [p.delegateAuthority.value])
                   case Supersede =>
                     && canon in after.owners && after.owners[canon] == Ownership(p.newOwner.value, name, |chain|)
                     && canon !in after.revoked && DelegatesIn(after, canon) == []
                   case Adjudicate =>
                     && canon in after.owners && after.owners[canon] == Ownership(p.awardedOwner.value, name, |chain|)
                     && canon !in after.revoked && DelegatesIn(after, canon) == []
                   case _ => canon !in after.owners && canon in after.revoked && DelegatesIn(after, canon) == [])
  {
    Snoc(c, chain, r);
    AlwaysConsistent(c, chain);
    ApplyExact(c, Projection(c, chain), r, |chain|);
    forall n | n != CanonOf(c, r)
      ensures var st, after := Projection(c, chain), Projection(c, chain + [r]);
              && (n in after.owners <==> n in st.owners) && (n in st.owners ==> after.owners[n] == st.owners[n])
              && (n in after.revoked <==> n in st.revoked)
              && DelegatesIn(after, n) == DelegatesIn(st, n)
    {
      OtherRecordsStay(c, Projection(c, chain), r, |chain|, n);
    }
  }

  // ---- provenance --------------------------------------------------------------------------

  /** The receipt grants canon to o.owner under the name recorded in o. */
  predicate Grants(c: Canonicalizer, r: Receipt, canon: string, o: Ownership) {
    && !r.failed && CanonOf(c, r) == canon && OrEmpty(r.params.name) == o.name
    && match r.op
       case Allocate => r.authority == o.owner
       case Supersede => OrEmpty(r.params.newOwner) == o.owner
       case Adjudicate => OrEmpty(r.params.awardedOwner) == o.owner
       case _ => false
  }

  /** The receipt delegates canon to d on the authority of `owner`. */
  predicate DelegatesTo(c: Canonicalizer, r: Receipt, canon: string, owner: string, d: string) {
    && !r.failed && CanonOf(c, r) == canon && r.op == Delegate
    && r.authority == owner && d != "" && OrEmpty(r.params.delegateAuthority) == d
  }

  /** The same ownership record has stood after every prefix of the chain longer than its index. */
  ghost predicate StoodSince(c: Canonicalizer, chain: seq<Receipt>, canon: string, o: Ownership) {
    forall k :: o.index < k <= |chain| ==>
                  canon in Projection(c, chain[..k]).owners && Projection(c, chain[..k]).owners[canon] == o
  }

  /** Some receipt after the grant delegates canon to d on the owner's authority. */
  ghost predicate DelegatedSince(c: Canonicalizer, chain: seq<Receipt>, canon: string, o: Ownership, d: string) {
    exists j :: o.index < j < |chain| && DelegatesTo(c, chain[j], canon, o.owner, d)
  }

  /** After one receipt a standing ownership is either new, granted by it and without delegates, or unchanged. */
  lemma OwnershipStep(c: Canonicalizer, st: State, r: Receipt, index: nat, canon: string)
    requires Consistent(st, index)
    requires canon in Apply(c, st, r, index).owners
    ensures var after := Apply(c, st, r, index);
            var o := after.owners[canon];
            if o.index == index then Grants(c, r, canon, o) && DelegatesIn(after, canon) == []
            else canon in st.owners && st.owners[canon] == o
  {
  }

  lemma DelegatesStep(c: Canonicalizer, st: State, r: Receipt, index: nat, canon: string, d: string)
    requires Consistent(st, index)
    requires canon in st.owners && canon in Apply(c, st, r, index).owners
    requires Apply(c, st, r, index).owners[canon] == st.owners[canon]
    ensures d in DelegatesIn(Apply(c, st, r, index), canon) <==>
            d in DelegatesIn(st, canon) || DelegatesTo(c, r, canon, st.owners[canon].owner, d)
  {
  }

  lemma DelegatedSinceStep(c: Canonicalizer, chain: seq<Receipt>, r: Receipt, canon: string, o: Ownership, d: string)
    requires o.index < |chain|
    ensures DelegatedSince(c, chain + [r], canon, o, d) <==>
            DelegatedSince(c, chain, canon, o, d) || DelegatesTo(c, r, canon, o.owner, d)
  {
    var longer := chain + [r];
    if j :| o.index < j < |chain| && DelegatesTo(c, chain[j], canon, o.owner, d) {
      assert DelegatesTo(c, longer[j], canon, o.owner, d);
    }
    if DelegatesTo(c, r, canon, o.owner, d) {
      assert DelegatesTo(c, longer[|chain|], canon, o.owner, d);
    }
  }

  /** The stored index points at the receipt that granted the name to its owner, and the record stood ever since. */
  lemma {:induction false} EveryOwnershipHasProvenance(c: Canonicalizer, chain: seq<Receipt>, canon: string)
    requires canon in Projection(c, chain).owners
    ensures var o := Projection(c, chain).owners[canon];
            o.index < |chain| && Grants(c, chain[o.index], canon, o) && StoodSince(c, chain, canon, o)
  {
    var last := |chain| - 1;
    var init, o := chain[..last], Projection(c, chain).owners[canon];
    AlwaysConsistent(c, init);
    OwnershipStep(c, Projection(c, init), chain[last], last, canon);
    assert chain[..|chain|] == chain;
    if o.index != last {
      EveryOwnershipHasProvenance(c, init, canon);
      forall k | o.index < k <= |chain|
        ensures canon in Projection(c, chain[..k]).owners && Projection(c, chain[..k]).owners[canon] == o
      {
        if k < |chain| {
          assert chain[..k] == init[..k];
        }
      }
    } else {
      AlwaysConsistent(c, chain);
    }
  }

  /** The delegates of an owned name are exactly those its present owner granted after receiving it. */
  lemma {:induction false} DelegatesHaveProvenance(c: Canonicalizer, chain: seq<Receipt>, canon: string, d: string)
    ensures var st := Projection(c, chain);
            d in DelegatesIn(st, canon) <==>
            canon in st.owners && DelegatedSince(c, chain, canon, st.owners[canon], d)
  {
    AlwaysConsistent(c, chain);
    var st := Projection(c, chain);
    if canon in st.owners {
      var last := |chain| - 1;
      var init, r, o := chain[..last], chain[last], st.owners[canon];
      assert chain == init + [r];
      AlwaysConsistent(c, init);
      OwnershipStep(c, Projection(c, init), r, last, canon);
      if o.index != last {
        DelegatesHaveProvenance(c, init, canon, d);
        DelegatesStep(c, Projection(c, init), r, last, canon, d);
        DelegatedSinceStep(c, init, r, canon, o, d);
      }
    }
  }

  /** Authority over a name: of the receipt that granted it, or of whom its owner delegated it to since. */
  lemma AuthorityHasProvenance(c: Canonicalizer, chain: seq<Receipt>, name: string, authority: string)
    ensures HasAuthority(c, chain, name, authority) <==>
            && c(name) in Projection(c, chain).owners
            && var o := Projection(c, chain).owners[c(name)];
               authority == o.owner || DelegatedSince(c, chain, c(name), o, authority)
  {
    DelegatesHaveProvenance(c, chain, c(name), authority);
  }

  // ---- permanence and accountability of change ------------------------------------------------

  lemma RevokedStaysStep(c: Canonicalizer, st: State, r: Receipt, index: nat, canon: string)
    requires canon in st.revoked
    ensures canon in Apply(c, st, r, index).revoked
  {
  }

  lemma {:induction false} RevokedStays(c: Canonicalizer, chain: seq<Receipt>, later: seq<Receipt>, canon: string)
    requires canon in Projection(c, chain).revoked
    ensures canon in Projection(c, chain + later).revoked
  {
    if later == [] {
      assert chain + later == chain;
    } else {
      var init, r := later[..|later| - 1], later[|later| - 1];
      RevokedStays(c, chain, init, canon);
      AppendSnoc(chain, later);
      Snoc(c, chain + init, r);
      RevokedStaysStep(c, Projection(c, chain + init), r, |chain + init|, canon);
    }
  }

  /** Once revoked or invalidated, no continuation of the chain gives the name an owner, adjudication included. */
  lemma RemovalIsPermanent(c: Canonicalizer, chain: seq<Receipt>, later: seq<Receipt>, canon: string)
    requires canon in Projection(c, chain).revoked
    ensures canon in Projection(c, chain + later).revoked && canon !in Projection(c, chain + later).owners
  {
    RevokedStays(c, chain, later, canon);
    AlwaysConsistent(c, chain + later);
  }

  lemma NeverFreedStep(c: Canonicalizer, st: State, r: Receipt, index: nat, canon: string)
    requires canon in st.owners || canon in st.revoked
    ensures var after := Apply(c, st, r, index); canon in after.owners || canon in after.revoked
  {
  }

  /** A name that was ever owned stays owned or is revoked; it never becomes free again. */
  lemma {:induction false} OnceOwnedNeverFree(c: Canonicalizer, chain: seq<Receipt>, later: seq<Receipt>, canon: string)
    requires canon in Projection(c, chain).owners
    ensures var st := Projection(c, chain + later); canon in st.owners || canon in st.revoked
  {
    if later == [] {
      assert chain + later == chain;
    } else {
      var init, r := later[..|later| - 1], later[|later| - 1];
      OnceOwnedNeverFree(c, chain, init, canon);
      AppendSnoc(chain, later);
      Snoc(c, chain + init, r);
      NeverFreedStep(c, Projection(c, chain + init), r, |chain + init|, canon);
    }
  }

  /** Receipt i is an allocation that took effect. */
  ghost predicate EffectiveAllocation(c: Canonicalizer, chain: seq<Receipt>, i: int, canon: string) {
    && 0 <= i < |chain| && chain[i].op == Allocate && CanonOf(c, chain[i]) == canon
    && canon !in Projection(c, chain[..i]).owners && canon in Projection(c, chain[..i + 1]).owners
  }

  lemma AllocationNeedsFreeName(c: Canonicalizer, chain: seq<Receipt>, i: int, canon: string)
    requires EffectiveAllocation(c, chain, i, canon)
    ensures canon !in Projection(c, chain[..i]).owners && canon !in Projection(c, chain[..i]).revoked
  {
    assert chain[..i + 1] == chain[..i] + [chain[i]];
    Snoc(c, chain[..i], chain[i]);
  }

  lemma OwnedBlocksLaterAllocation(c: Canonicalizer, chain: seq<Receipt>, i: int, j: int, canon: string)
    requires 0 <= i < j < |chain| && canon in Projection(c, chain[..i + 1]).owners
    ensures !EffectiveAllocation(c, chain, j, canon)
  {
    var early, middle := chain[..i + 1], chain[i + 1..j];
    assert chain[..j] == early + middle;
    OnceOwnedNeverFree(c, early, middle, canon);
    if EffectiveAllocation(c, chain, j, canon) {
      AllocationNeedsFreeName(c, chain, j, canon);
    }
  }

  /** However many allocations of a name land, at most one of them ever takes effect. */
  lemma AtMostOneEffectiveAllocation(c: Canonicalizer, chain: seq<Receipt>, i: int, j: int, canon: string)
    requires EffectiveAllocation(c, chain, i, canon) && EffectiveAllocation(c, chain, j, canon)
    ensures i == j
  {
    if i < j {
      OwnedBlocksLaterAllocation(c, chain, i, j, canon);
    } else if j < i {
      OwnedBlocksLaterAllocation(c, chain, j, i, canon);
    }
  }

  /** r removes or hands over canon on the authority of its owner `o`. */
  predicate OwnersAct(c: Canonicalizer, r: Receipt, canon: string, o: string) {
    && !r.failed && CanonOf(c, r) == canon && r.authority == o
    && (r.op == Revoke || r.op == Invalidate || r.op == Supersede)
  }

  predicate Award(c: Canonicalizer, r: Receipt, canon: string) {
    !r.failed && CanonOf(c, r) == canon && r.op == Adjudicate
  }

  /** An owned name keeps its record unless its owner acts on it or an adjudication awards it. */
  lemma OnlyOwnerOrAwardChanges(c: Canonicalizer, chain: seq<Receipt>, r: Receipt, canon: string)
    requires canon in Projection(c, chain).owners
    ensures var o := Projection(c, chain).owners[canon];
            var after := Projection(c, chain + [r]);
            || (canon in after.owners && after.owners[canon] == o)
            || OwnersAct(c, r, canon, o.owner)
            || Award(c, r, canon)
  {
    Snoc(c, chain, r);
  }

  // ---- locality ------------------------------------------------------------------------------------

  /** What can be seen of one name; the position in the chain is left out. */
  datatype View = View(owner: Option<string>, name: string, revoked: bool, delegates: seq<string>)

  function ViewOf(st: State, canon: string): View {
    View(if canon in st.owners then Some(st.owners[canon].owner) else None,
         if canon in st.owners then st.owners[canon].name else "",
         canon in st.revoked,
         DelegatesIn(st, canon))
  }

  function ReceiptsFor(c: Canonicalizer, chain: seq<Receipt>, canon: string): seq<Receipt> {
    if chain == [] then []
    else
      var last := |chain| - 1;
      ReceiptsFor(c, chain[..last], canon) + if CanonOf(c, chain[last]) == canon then [chain[last]] else []
  }

  /** One receipt about a name, acting on what can be seen of that name. */
  function ViewAfter(v: View, r: Receipt): View {
    var name := OrEmpty(r.params.name);
    var gone := View(None, "", true, []);
    if r.failed then v
    else
      match r.op
      case Allocate => if v.owner.Some? || v.revoked then v else v.(owner := Some(r.authority), name := name)
      case Delegate =>
        var d := OrEmpty(r.params.delegateAuthority);
        if v.owner == Some(r.authority) && d != "" && d !in v.delegates then v.(delegates := v.delegates + [d]) else v
      case Revoke => if v.owner == Some(r.authority) then gone else v
      case Invalidate => if v.owner == Some(r.authority) then gone else v
      case Supersede =>
        var heir := OrEmpty(r.params.newOwner);
        if v.owner == Some(r.authority) && heir != "" then View(Some(heir), name, v.revoked, []) else v
      case Adjudicate =>
        var award := OrEmpty(r.params.awardedOwner);
        if award != "" && !v.revoked then View(Some(award), name, v.revoked, []) else v
      case _ => v
  }

  lemma ApplySeenLocally(c: Canonicalizer, st: State, r: Receipt, i: nat)
    requires CanonOf(c, r) != ""
    ensures var canon := CanonOf(c, r); ViewOf(Apply(c, st, r, i), canon) == ViewAfter(ViewOf(st, canon), r)
  {
  }

  lemma OtherNamesViewStays(c: Canonicalizer, st: State, r: Receipt, i: nat, canon: string)
    requires CanonOf(c, r) != canon
    ensures ViewOf(Apply(c, st, r, i), canon) == ViewOf(st, canon)
  {
  }

  lemma {:induction false} NothingIsNamedEmpty(c: Canonicalizer, chain: seq<Receipt>)
    ensures ViewOf(Projection(c, chain), "") == View(None, "", false, [])
  {
    AlwaysConsistent(c, chain);
  }

  /** Projecting the whole chain, or only the receipts of one name, shows the same owner, revocation and delegates. */
  lemma {:induction false} ProjectionIsLocal(c: Canonicalizer, chain: seq<Receipt>, canon: string)
    ensures ViewOf(Projection(c, chain), canon) == ViewOf(Projection(c, ReceiptsFor(c, chain, canon)), canon)
  {
    if canon == "" {
      NothingIsNamedEmpty(c, chain);
      NothingIsNamedEmpty(c, ReceiptsFor(c, chain, canon));
    } else if chain != [] {
      var init, r := chain[..|chain| - 1], chain[|chain| - 1];
      assert chain == init + [r];
      ProjectionIsLocal(c, init, canon);
      ReceiptsForSnoc(c, init, r, canon);
      SameViewAfter(c, init, ReceiptsFor(c, init, canon), r, canon);
    }
  }

  /** Chains that look alike for a name still do after one more receipt; if it is for another name, one may skip it. */
  lemma SameViewAfter(c: Canonicalizer, chain: seq<Receipt>, mine: seq<Receipt>, r: Receipt, canon: string)
    requires canon != "" && ViewOf(Projection(c, chain), canon) == ViewOf(Projection(c, mine), canon)
    ensures ViewOf(Projection(c, chain + [r]), canon) ==
            ViewOf(Projection(c, if CanonOf(c, r) == canon then mine + [r] else mine + []), canon)
  {
    Snoc(c, chain, r);
    if CanonOf(c, r) == canon {
      Snoc(c, mine, r);
      ApplySeenLocally(c, Projection(c, chain), r, |chain|);
      ApplySeenLocally(c, Projection(c, mine), r, |mine|);
    } else {
      assert mine + [] == mine;
      OtherNamesViewStays(c, Projection(c, chain), r, |chain|, canon);
    }
  }

  lemma ReceiptsForSnoc(c: Canonicalizer, chain: seq<Receipt>, r: Receipt, canon: string)
    ensures ReceiptsFor(c, chain + [r], canon) ==
            ReceiptsFor(c, chain, canon) + if CanonOf(c, r) == canon then [r] else []
  {
    assert (chain + [r])[..|chain|] == chain;
  }

  lemma {:induction false} ReceiptsForConcat(c: Canonicalizer, a: seq<Receipt>, b: seq<Receipt>, canon: string)
    ensures ReceiptsFor(c, a + b, canon) == ReceiptsFor(c, a, canon) + ReceiptsFor(c, b, canon)
  {
    if b == [] {
      assert a + b == a;
    } else {
      var init, r := b[..|b| - 1], b[|b| - 1];
      ReceiptsForConcat(c, a, init, canon);
      AppendSnoc(a, b);
      ReceiptsForSnoc(c, a + init, r, canon);
    }
  }

  /** Adjacent receipts for different names may be swapped anywhere in a chain; no name looks different. */
  lemma DifferentNamesCommute(c: Canonicalizer, before: seq<Receipt>, r: Receipt, s: Receipt, after: seq<Receipt>,
                              canon: string)
    requires CanonOf(c, r) != CanonOf(c, s)
    ensures ViewOf(Projection(c, before + [r, s] + after), canon) ==
            ViewOf(Projection(c, before + [s, r] + after), canon)
  {
    var rs, sr := before + [r, s] + after, before + [s, r] + after;
    ProjectionIsLocal(c, rs, canon);
    ProjectionIsLocal(c, sr, canon);
    SwappedReceipts(c, before, r, s, after, canon);
  }

  lemma SwappedReceipts(c: Canonicalizer, before: seq<Receipt>, r: Receipt, s: Receipt, after: seq<Receipt>,
                        canon: string)
    requires CanonOf(c, r) != CanonOf(c, s)
    ensures ReceiptsFor(c, before + [r, s] + after, canon) == ReceiptsFor(c, before + [s, r] + after, canon)
  {
    ReceiptsForConcat(c, before + [r, s], after, canon);
    ReceiptsForConcat(c, before + [s, r], after, canon);
    ReceiptsForConcat(c, before, [r, s], canon);
    ReceiptsForConcat(c, before, [s, r], canon);
    TwoReceipts(c, r, s, canon);
    TwoReceipts(c, s, r, canon);
  }

  lemma TwoReceipts(c: Canonicalizer, r: Receipt, s: Receipt, canon: string)
    requires CanonOf(c, r) != CanonOf(c, s)
    ensures ReceiptsFor(c, [r, s], canon) ==
            if CanonOf(c, r) == canon then [r] else if CanonOf(c, s) == canon then [s] else []
  {
    assert [r, s] == [r] + [s];
    ReceiptsForConcat(c, [r], [s], canon);
    OneReceipt(c, r, canon);
    OneReceipt(c, s, canon);
  }

  lemma OneReceipt(c: Canonicalizer, r: Receipt, canon: string)
    ensures ReceiptsFor(c, [r], canon) == if CanonOf(c, r) == canon then [r] else []
  {
    assert [r][..0] == [];
    assert ReceiptsFor(c, [r][..0], canon) == [];
  }

  // ---- gates agree with the fold ------------------------------------------------------------------------

  /** Appending the request's receipt next changes the projection. */
  ghost predicate Changes(s: Setting, chain: seq<Receipt>, req: Request, authority: string) {
    Projection(s.canonicalize, chain + [ReceiptOf(s, req, authority)]) != Projection(s.canonicalize, chain)
  }

  /**
   * With an explicit authority each gate admits exactly when its receipt would take effect. A delegation the
   * owner already made is admitted and changes nothing; a claim never changes anything; an adjudication needs
   * the Governor, which the fold itself does not check.
   */
  lemma GateAgreesWithFold(s: Setting, chain: seq<Receipt>, req: Request, authority: string)
    ensures req.AllocateRequest? || req.RevokeRequest? || req.InvalidateRequest? || req.SupersedeRequest? ==>
              (Gate(s, chain, req, Some(authority)) <==> Changes(s, chain, req, authority))
    ensures req.DelegateRequest? ==>
              (Changes(s, chain, req, authority) <==>
               && Gate(s, chain, req, Some(authority))
               && req.delegateAuthority !in DelegatesOf(s.canonicalize, chain, req.name))
    ensures req.AdjudicateRequest? ==>
              (Gate(s, chain, req, Some(authority)) <==>
               s.governor != "" && authority == s.governor && Changes(s, chain, req, authority))
    ensures req.DelegateRequest? ==>
              (Gate(s, chain, req, Some(authority)) <==>
               && s.canonicalize(req.name) != "" && req.delegateAuthority != ""
               && OwnerOf(s.canonicalize, chain, req.name) == Some(authority))
    ensures req.ClaimRequest? ==>
              && !Changes(s, chain, req, authority)
              && (Gate(s, chain, req, Some(authority)) <==> s.canonicalize(req.name) != "")
  {
    var c := s.canonicalize;
    Snoc(c, chain, ReceiptOf(s, req, authority));
    AlwaysConsistent(c, chain);
    var st, after := Projection(c, chain), Projection(c, chain + [ReceiptOf(s, req, authority)]);
    var canon := c(req.name);
    assert CanonOf(c, ReceiptOf(s, req, authority)) == canon;
    if Gate(s, chain, req, Some(authority)) {
      match req
      case ClaimRequest(_) =>
      case AllocateRequest(_) => assert canon in after.owners;
      case DelegateRequest(_, d) => assert d in DelegatesIn(after, canon);
      case RevokeRequest(_) => assert canon in after.revoked;
      case InvalidateRequest(_) => assert canon in after.revoked;
      case SupersedeRequest(_, _) => assert after.owners[canon].index == |chain|;
      case AdjudicateRequest(_, _) => assert canon in after.owners && after.owners[canon].index == |chain|;
    }
    if req.DelegateRequest? && Gate(s, chain, req, Some(authority)) && req.delegateAuthority in DelegatesIn(st, canon) {
      assert after.delegates == st.delegates;
    }
  }

  /** The request can only repeat what the owner already delegated. */
  predicate RepeatsDelegation(s: Setting, chain: seq<Receipt>, req: Request) {
    req.DelegateRequest? && req.delegateAuthority in DelegatesOf(s.canonicalize, chain, req.name)
  }

  /**
   * When the caller omits the authority, the gate sees none while the receipt carries the kernel's own. The
   * gate then still admits exactly the requests that would take effect under this condition: always for an
   * allocation and never for a well-formed claim; for the owner-only operations when the request is malformed,
   * or the name is owned and either the owner is not the kernel's authority or the request repeats a
   * delegation; for an adjudication when the request is malformed or the name is revoked.
   */
  predicate OmissionIsSafe(s: Setting, chain: seq<Receipt>, req: Request) {
    var owner := OwnerOf(s.canonicalize, chain, req.name);
    match req
    case ClaimRequest(_) => !req.WellFormed(s.canonicalize)
    case AllocateRequest(_) => true
    case AdjudicateRequest(name, _) =>
      !req.WellFormed(s.canonicalize) || s.canonicalize(name) in Projection(s.canonicalize, chain).revoked
    case _ =>
      || !req.WellFormed(s.canonicalize)
      || (owner.Some? && (owner.value != s.kernelAuthority || RepeatsDelegation(s, chain, req)))
  }

  /** With the authority omitted, the gate's verdict and the receipt's effect agree exactly under that condition. */
  lemma OmittedAuthorityAgreesIff(s: Setting, chain: seq<Receipt>, req: Request)
    ensures (Gate(s, chain, req, None) <==> Changes(s, chain, req, s.kernelAuthority)) <==>
            OmissionIsSafe(s, chain, req)
  {
    GateAgreesWithFold(s, chain, req, s.kernelAuthority);
    if req.AdjudicateRequest? {
      AwardTakesEffectIff(s, chain, req, s.kernelAuthority);
    }
  }

  /** The fold itself takes an award from anybody: it takes effect exactly when well-formed and the name not revoked. */
  lemma AwardTakesEffectIff(s: Setting, chain: seq<Receipt>, req: Request, authority: string)
    requires req.AdjudicateRequest?
    ensures Changes(s, chain, req, authority) <==>
            && req.WellFormed(s.canonicalize)
            && s.canonicalize(req.name) !in Projection(s.canonicalize, chain).revoked
  {
    var c := s.canonicalize;
    Snoc(c, chain, ReceiptOf(s, req, authority));
    AlwaysConsistent(c, chain);
    var after := Projection(c, chain + [ReceiptOf(s, req, authority)]);
    if req.WellFormed(c) && c(req.name) !in Projection(c, chain).revoked {
      assert after.owners[c(req.name)].index == |chain|;
    }
  }

  /** Revoking an unowned name without an authority is admitted and changes nothing. */
  lemma UnownedNameIsRevokedToNoEffect(s: Setting, name: string)
    requires s.canonicalize(name) != ""
    ensures Gate(s, [], RevokeRequest(name), None) && !Changes(s, [], RevokeRequest(name), s.kernelAuthority)
  {
    GateAgreesWithFold(s, [], RevokeRequest(name), s.kernelAuthority);
  }

  /** The kernel may not revoke its own name without naming itself, although its receipt would take effect. */
  lemma OwnNameIsRefusedWithoutAuthority(s: Setting, name: string)
    requires s.canonicalize(name) != ""
    ensures var chain := [ReceiptOf(s, AllocateRequest(name), s.kernelAuthority)];
            !Gate(s, chain, RevokeRequest(name), None) && Changes(s, chain, RevokeRequest(name), s.kernelAuthority)
  {
    var r := ReceiptOf(s, AllocateRequest(name), s.kernelAuthority);
    Snoc(s.canonicalize, [], r);
    assert [] + [r] == [r];
    GateAgreesWithFold(s, [r], RevokeRequest(name), s.kernelAuthority);
  }
}
