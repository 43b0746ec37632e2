/** Key eras: what extending the succession lineage does to authorized keys and to records already admitted. */
module KeyEras {
  import opened Ordering
  import opened Amendment
  import opened Ledger

  /** The key that has to vouch for link i: the governor's for the first, then the previous link's successor. */
  function VoucherOf(governor: Key, links: seq<SuccessorLink>, i: nat): Key
    requires i < |links|
  {
    if i == 0 then governor else links[i - 1].successorPubkey
  }

  /** Each of the first n links names the MosaicID of its voucher and carries the voucher's signature over its body. */
  predicate Unbroken(c: Crypto, governor: Key, links: seq<SuccessorLink>, n: nat)
    requires n <= |links|
  {
    forall i :: 0 <= i < n ==>
      var link, voucher := links[i], VoucherOf(governor, links, i);
      var body := LineageBody(link.amendmentHash, link.authority, link.predecessorMosaic, link.successorMosaic,
                              link.successorPubkey, link.timestamp);
      link.predecessorMosaic == c.mosaic(voucher) && c.verify(voucher, LineageMessage(body), link.successionProof)
  }

  /** Authorized keys are the governor's key and the successors along the longest unbroken prefix of the lineage. */
  lemma KeysAreLongestUnbrokenPrefix(c: Crypto, governor: Key, links: seq<SuccessorLink>)
    ensures var keys := KeysFrom(c, governor, links);
            var n := |keys| - 1;
            && n <= |links| && Unbroken(c, governor, links, n)
            && (n < |links| ==> !Unbroken(c, governor, links, n + 1))
            && keys[0] == governor && (forall i :: 0 <= i < n ==> keys[i + 1] == links[i].successorPubkey)
  {
    EachKeyVouchesForTheNext(c, governor, links);
    var keys := KeysFrom(c, governor, links);
    assert forall i :: 0 <= i < |keys| && i < |links| ==> VoucherOf(governor, links, i) == keys[i];
  }

  /** Extending the lineage only appends keys. */
  lemma {:induction false} ExtensionOnlyAppends(c: Crypto, governor: Key, links: seq<SuccessorLink>,
                                                more: seq<SuccessorLink>)
    ensures KeysFrom(c, governor, links) <= KeysFrom(c, governor, links + more)
    decreases links
  {
    if links != [] && Continues(c, governor, links[0]) {
      ExtensionOnlyAppends(c, links[0].successorPubkey, links[1..], more);
      assert (links + more)[1..] == links[1..] + more;
    }
  }

  /** An admitted record is signed by an authorized key it names; unless admitted as historical, by the active one. */
  lemma AdmittedIsSignedInEra(c: Crypto, r: AmendmentRecord, x: Context)
    requires IsAdmissible(c, r, x).Admitted?
    ensures exists k :: k in KeysFrom(c, x.governor, x.succession) && c.mosaic(k) == r.authority
                        && c.verify(k, AmendmentMessage(SignedPayload(r)), r.signature)
    ensures !x.historical ==>
              var active := ActiveKey(c, x.governor, x.succession);
              c.mosaic(active) == r.authority && c.verify(active, AmendmentMessage(SignedPayload(r)), r.signature)
  {
    FirstMatchIsMember(KeysFrom(c, x.governor, x.succession), Named(c, r.authority));
  }

  /** No extension of the lineage unseats an admitted record: it remains admissible as historical. */
  lemma AdmittedStaysHistorical(c: Crypto, r: AmendmentRecord, x: Context, more: seq<SuccessorLink>)
    requires IsAdmissible(c, r, x).Admitted?
    ensures IsAdmissible(c, r, x.(succession := x.succession + more, historical := true)).Admitted?
  {
    ExtensionOnlyAppends(c, x.governor, x.succession, more);
    FirstMatchInPrefix(KeysFrom(c, x.governor, x.succession), KeysFrom(c, x.governor, x.succession + more),
                       Named(c, r.authority));
  }

  /** As a new amendment it survives the extension exactly when the active key is still the same. */
  lemma AdmittedStaysNewIff(c: Crypto, r: AmendmentRecord, x: Context, more: seq<SuccessorLink>)
    requires IsAdmissible(c, r, x).Admitted? && !x.historical
    ensures var y := x.(succession := x.succession + more);
            && (IsAdmissible(c, r, y).Admitted? <==>
                ActiveKey(c, x.governor, y.succession) == ActiveKey(c, x.governor, x.succession))
            && (!IsAdmissible(c, r, y).Admitted? ==> IsAdmissible(c, r, y) == Refused(RetiredKey))
  {
    ExtensionOnlyAppends(c, x.governor, x.succession, more);
    FirstMatchInPrefix(KeysFrom(c, x.governor, x.succession), KeysFrom(c, x.governor, x.succession + more),
                       Named(c, r.authority));
  }

  /**
   * A whole ledger admitted under a lineage is admitted under an extension of it exactly when every record is
   * then attested as historical or signed for by the key that is then active.
   */
  lemma LedgerSurvivesExtensionIff(s: Setup, entries: seq<Entry>, more: seq<SuccessorLink>, historical: nat -> bool)
    requires AdmittedLedger(s, entries)
    ensures var extended := s.(succession := s.succession + more, historical := historical);
            AdmittedLedger(extended, entries) <==>
            forall i :: 0 <= i < |entries| ==> historical(i) || SignerIsActive(extended, entries[i].record)
  {
    var extended := s.(succession := s.succession + more, historical := historical);
    forall i | 0 <= i < |entries|
      ensures AdmittedAt(extended, entries, i) <==> historical(i) || SignerIsActive(extended, entries[i].record)
    {
      RecordSurvivesExtensionIff(s, entries, more, historical, i);
    }
  }

  lemma RecordSurvivesExtensionIff(s: Setup, entries: seq<Entry>, more: seq<SuccessorLink>, historical: nat -> bool,
                                   i: nat)
    requires i < |entries| && AdmittedAt(s, entries, i)
    ensures var extended := s.(succession := s.succession + more, historical := historical);
            AdmittedAt(extended, entries, i) <==> historical(i) || SignerIsActive(extended, entries[i].record)
  {
    ExtensionOnlyAppends(s.crypto, s.governor, s.succession, more);
    FirstMatchInPrefix(KeysFrom(s.crypto, s.governor, s.succession),
                       KeysFrom(s.crypto, s.governor, s.succession + more),
                       Named(s.crypto, entries[i].record.authority));
  }
}
