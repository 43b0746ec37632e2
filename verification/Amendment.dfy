/**
 * Amendment records, the succession of Governor keys, and admissibility of one record
 * (ugk/amendment.py, ugk/successor.py).
 */
module Amendment {
  import opened Collections
  import opened Ordering

  // ---- canonical JSON objects and cryptography ----------------------------------------------

  datatype Field =
    | AmendmentKind | Authority | InvariantsAdded | InvariantsRemoved | PhaseCode
    | PriorLawHash | SignatureField | SuccessorLawHash | Timestamp
    | PriorLegendHash | SuccessorLegendHash | PriorSchemaHash | SuccessorSchemaHash | PriorAmendmentHash

  datatype Json = Str(value: string) | List(items: seq<string>)

  /** A JSON object with sorted keys: which fields are present, and their values. */
  type Object = map<Field, Json>

  /** The body a succession proof signs. */
  datatype LineageBody = LineageBody(
    amendmentHash: string,
    authority: string,
    predecessorMosaic: string,
    successorMosaic: string,
    successorPubkey: Key,
    timestamp: string)

  datatype Message = AmendmentMessage(body: Object) | LineageMessage(lineage: LineageBody)

  newtype Byte = b: int | 0 <= b < 256

  type Key = seq<Byte>

  /** SHA-256 of a canonical body, MosaicID of a key, and Ed25519 verification (section 5.1 of RFC 8032). */
  datatype Crypto = Crypto(
    digest: Object -> string,
    mosaic: Key -> string,
    verify: (Key, Message, string) -> bool)
  {
    ghost predicate InjectiveDigest() {
      forall a, b :: digest(a) == digest(b) ==> a == b
    }
  }

  // ---- records -----------------------------------------------------------------------------------

  datatype AmendmentRecord = AmendmentRecord(
    amendmentHash: string,
    priorLawHash: string,
    successorLawHash: string,
    invariantsAdded: seq<string>,
    invariantsRemoved: seq<string>,
    authority: string,
    signature: string,
    phaseCode: string,
    timestamp: string,
    amendmentKind: string,
    priorLegendHash: string,
    successorLegendHash: string,
    priorSchemaHash: string,
    successorSchemaHash: string,
    priorAmendmentHash: string)

  /** An empty optional field is omitted. */
  function WithOptional(body: Object, field: Field, value: string): Object {
    if value == "" then body else body[field := Str(value)]
  }

  /** The optional fields of a record. */
  datatype Legs = Legs(
    priorLegend: string, successorLegend: string, priorSchema: string, successorSchema: string, priorAmendment: string)

  function LegsOf(r: AmendmentRecord): Legs {
    Legs(r.priorLegendHash, r.successorLegendHash, r.priorSchemaHash, r.successorSchemaHash, r.priorAmendmentHash)
  }

  function WithLegs(body: Object, legs: Legs): Object {
    WithOptional(WithOptional(WithOptional(WithOptional(WithOptional(body,
      PriorLegendHash, legs.priorLegend),
      SuccessorLegendHash, legs.successorLegend),
      PriorSchemaHash, legs.priorSchema),
      SuccessorSchemaHash, legs.successorSchema),
      PriorAmendmentHash, legs.priorAmendment)
  }

  /** The fields every payload carries; the signature is added for the hash and left out for signing. */
  function Core(r: AmendmentRecord, added: seq<string>, removed: seq<string>): Object {
    map[
      AmendmentKind := Str(r.amendmentKind),
      Authority := Str(r.authority),
      InvariantsAdded := List(added),
      InvariantsRemoved := List(removed),
      PhaseCode := Str(r.phaseCode),
      PriorLawHash := Str(r.priorLawHash),
      SuccessorLawHash := Str(r.successorLawHash),
      Timestamp := Str(r.timestamp)]
  }

  /** What amendment_hash commits to. */
  function Body(r: AmendmentRecord): Object {
    WithLegs(Core(r, r.invariantsAdded, r.invariantsRemoved)[SignatureField := Str(r.signature)], LegsOf(r))
  }

  /** What the Governor signs: everything but the signature, with the invariant lists sorted. */
  function SignedPayload(r: AmendmentRecord): Object {
    WithLegs(Core(r, SortStrings(r.invariantsAdded), SortStrings(r.invariantsRemoved)), LegsOf(r))
  }

  predicate VerifyHash(c: Crypto, r: AmendmentRecord) {
    c.digest(Body(r)) == r.amendmentHash
  }

  /** Completes a draft whose hash is still missing: sorts the invariant lists and computes the hash. */
  function Create(c: Crypto, draft: AmendmentRecord): (r: AmendmentRecord)
    ensures VerifyHash(c, r)
    ensures SignedPayload(r) == SignedPayload(draft)
    ensures r.signature == draft.signature
    ensures SortedBy(StringLeq, r.invariantsAdded) && SortedBy(StringLeq, r.invariantsRemoved)
  {
    StringOrder();
    SortSorts(StringLeq, draft.invariantsAdded);
    SortSorts(StringLeq, draft.invariantsRemoved);
    SortTwice(draft.invariantsAdded);
    SortTwice(draft.invariantsRemoved);
    var sorted := draft.(invariantsAdded := SortStrings(draft.invariantsAdded),
                         invariantsRemoved := SortStrings(draft.invariantsRemoved));
    var r := sorted.(amendmentHash := c.digest(Body(sorted)));
    assert Body(r) == Body(sorted);
    r
  }

  lemma SortTwice(s: seq<string>)
    ensures SortStrings(SortStrings(s)) == SortStrings(s)
  {
    StringOrder();
    SortSorts(StringLeq, s);
    SortDependsOnlyOnMultiset(StringLeq, SortStrings(s), s);
  }

  /** Looking a field up in a body: an optional field reads as "" when it was omitted. */
  function StringAt(body: Object, field: Field): string {
    if field in body && body[field].Str? then body[field].value else ""
  }

  predicate Optional(f: Field) {
    f in {PriorLegendHash, SuccessorLegendHash, PriorSchemaHash, SuccessorSchemaHash, PriorAmendmentHash}
  }

  /** Adding the optional fields to a base without any keeps the base, and each reads back as its value. */
  lemma LegsAreReadable(base: Object, legs: Legs)
    requires forall f :: f in base ==> !Optional(f)
    ensures var body := WithLegs(base, legs);
            && StringAt(body, PriorLegendHash) == legs.priorLegend
            && StringAt(body, SuccessorLegendHash) == legs.successorLegend
            && StringAt(body, PriorSchemaHash) == legs.priorSchema
            && StringAt(body, SuccessorSchemaHash) == legs.successorSchema
            && StringAt(body, PriorAmendmentHash) == legs.priorAmendment
    ensures forall f :: !Optional(f) ==> (f in WithLegs(base, legs) <==> f in base)
    ensures forall f :: f in base ==> WithLegs(base, legs)[f] == base[f]
  {
  }

  /** Two bodies built on bases without optional fields are equal only if bases and optional fields are. */
  lemma LegsSeparate(base1: Object, legs1: Legs, base2: Object, legs2: Legs)
    requires forall f :: f in base1 || f in base2 ==> !Optional(f)
    ensures WithLegs(base1, legs1) == WithLegs(base2, legs2) <==> base1 == base2 && legs1 == legs2
  {
    LegsAreReadable(base1, legs1);
    LegsAreReadable(base2, legs2);
    if WithLegs(base1, legs1) == WithLegs(base2, legs2) {
      assert forall f :: f in base1 <==> f in base2;
    }
  }

  lemma CoreSeparates(r: AmendmentRecord, a1: seq<string>, r1: seq<string>,
                      s: AmendmentRecord, a2: seq<string>, r2: seq<string>)
    ensures Core(r, a1, r1) == Core(s, a2, r2) <==>
            && r.amendmentKind == s.amendmentKind && r.authority == s.authority && a1 == a2 && r1 == r2
            && r.phaseCode == s.phaseCode && r.priorLawHash == s.priorLawHash
            && r.successorLawHash == s.successorLawHash && r.timestamp == s.timestamp
  {
    var x, y := Core(r, a1, r1), Core(s, a2, r2);
    if x == y {
      assert x[AmendmentKind] == y[AmendmentKind] && x[Authority] == y[Authority];
      assert x[InvariantsAdded] == y[InvariantsAdded] && x[InvariantsRemoved] == y[InvariantsRemoved];
      assert x[PhaseCode] == y[PhaseCode] && x[PriorLawHash] == y[PriorLawHash];
      assert x[SuccessorLawHash] == y[SuccessorLawHash] && x[Timestamp] == y[Timestamp];
    }
  }

  lemma SignatureSeparates(x: Object, sig1: string, y: Object, sig2: string)
    requires SignatureField !in x && SignatureField !in y
    ensures x[SignatureField := Str(sig1)] == y[SignatureField := Str(sig2)] <==> x == y && sig1 == sig2
  {
    var sx, sy := x[SignatureField := Str(sig1)], y[SignatureField := Str(sig2)];
    if sx == sy {
      assert sx[SignatureField] == sy[SignatureField];
      assert x == sx - {SignatureField} && y == sy - {SignatureField};
    }
  }

  /** Omitting empty fields loses nothing: equal bodies mean records that differ at most in their stored hash. */
  lemma BodyIsInjective(r: AmendmentRecord, s: AmendmentRecord)
    ensures Body(r) == Body(s) <==> r.(amendmentHash := s.amendmentHash) == s
  {
    var x, y := Core(r, r.invariantsAdded, r.invariantsRemoved), Core(s, s.invariantsAdded, s.invariantsRemoved);
    CoreSeparates(r, r.invariantsAdded, r.invariantsRemoved, s, s.invariantsAdded, s.invariantsRemoved);
    SignatureSeparates(x, r.signature, y, s.signature);
    LegsSeparate(x[SignatureField := Str(r.signature)], LegsOf(r), y[SignatureField := Str(s.signature)], LegsOf(s));
  }

  /** Optional fields are added exactly when their values are not empty. */
  lemma LegsLayout(base: Object, r: AmendmentRecord)
    ensures WithLegs(base, LegsOf(r)) ==
            base
            + (if r.priorLegendHash == "" then map[] else map[PriorLegendHash := Str(r.priorLegendHash)])
            + (if r.successorLegendHash == "" then map[] else map[SuccessorLegendHash := Str(r.successorLegendHash)])
            + (if r.priorSchemaHash == "" then map[] else map[PriorSchemaHash := Str(r.priorSchemaHash)])
            + (if r.successorSchemaHash == "" then map[] else map[SuccessorSchemaHash := Str(r.successorSchemaHash)])
            + (if r.priorAmendmentHash == "" then map[] else map[PriorAmendmentHash := Str(r.priorAmendmentHash)])
  {
    var one := WithOptional(base, PriorLegendHash, r.priorLegendHash);
    var two := WithOptional(one, SuccessorLegendHash, r.successorLegendHash);
    var three := WithOptional(two, PriorSchemaHash, r.priorSchemaHash);
    var four := WithOptional(three, SuccessorSchemaHash, r.successorSchemaHash);
    OptionalLayout(base, PriorLegendHash, r.priorLegendHash);
    OptionalLayout(one, SuccessorLegendHash, r.successorLegendHash);
    OptionalLayout(two, PriorSchemaHash, r.priorSchemaHash);
    OptionalLayout(three, SuccessorSchemaHash, r.successorSchemaHash);
    OptionalLayout(four, PriorAmendmentHash, r.priorAmendmentHash);
  }

  lemma OptionalLayout(base: Object, field: Field, value: string)
    ensures WithOptional(base, field, value) == base + (if value == "" then map[] else map[field := Str(value)])
  {
    assert base + map[] == base;
  }

  /** What the hash commits to: the nine fields, and each optional one exactly when its value is not empty. */
  lemma BodyLayout(r: AmendmentRecord)
    ensures Body(r) ==
            map[
              AmendmentKind := Str(r.amendmentKind),
              Authority := Str(r.authority),
              InvariantsAdded := List(r.invariantsAdded),
              InvariantsRemoved := List(r.invariantsRemoved),
              PhaseCode := Str(r.phaseCode),
              PriorLawHash := Str(r.priorLawHash),
              SignatureField := Str(r.signature),
              SuccessorLawHash := Str(r.successorLawHash),
              Timestamp := Str(r.timestamp)]
            + (if r.priorLegendHash == "" then map[] else map[PriorLegendHash := Str(r.priorLegendHash)])
            + (if r.successorLegendHash == "" then map[] else map[SuccessorLegendHash := Str(r.successorLegendHash)])
            + (if r.priorSchemaHash == "" then map[] else map[PriorSchemaHash := Str(r.priorSchemaHash)])
            + (if r.successorSchemaHash == "" then map[] else map[SuccessorSchemaHash := Str(r.successorSchemaHash)])
            + (if r.priorAmendmentHash == "" then map[] else map[PriorAmendmentHash := Str(r.priorAmendmentHash)])
  {
    CoreWithSignature(r);
    LegsLayout(Core(r, r.invariantsAdded, r.invariantsRemoved)[SignatureField := Str(r.signature)], r);
  }

  lemma CoreWithSignature(r: AmendmentRecord)
    ensures Core(r, r.invariantsAdded, r.invariantsRemoved)[SignatureField := Str(r.signature)] ==
            map[
              AmendmentKind := Str(r.amendmentKind),
              Authority := Str(r.authority),
              InvariantsAdded := List(r.invariantsAdded),
              InvariantsRemoved := List(r.invariantsRemoved),
              PhaseCode := Str(r.phaseCode),
              PriorLawHash := Str(r.priorLawHash),
              SignatureField := Str(r.signature),
              SuccessorLawHash := Str(r.successorLawHash),
              Timestamp := Str(r.timestamp)]
  {
  }

  /** What the Governor signs: the same without the signature, and with the invariant lists sorted. */
  lemma PayloadLayout(r: AmendmentRecord)
    ensures SignedPayload(r) ==
            map[
              AmendmentKind := Str(r.amendmentKind),
              Authority := Str(r.authority),
              InvariantsAdded := List(SortStrings(r.invariantsAdded)),
              InvariantsRemoved := List(SortStrings(r.invariantsRemoved)),
              PhaseCode := Str(r.phaseCode),
              PriorLawHash := Str(r.priorLawHash),
              SuccessorLawHash := Str(r.successorLawHash),
              Timestamp := Str(r.timestamp)]
            + (if r.priorLegendHash == "" then map[] else map[PriorLegendHash := Str(r.priorLegendHash)])
            + (if r.successorLegendHash == "" then map[] else map[SuccessorLegendHash := Str(r.successorLegendHash)])
            + (if r.priorSchemaHash == "" then map[] else map[PriorSchemaHash := Str(r.priorSchemaHash)])
            + (if r.successorSchemaHash == "" then map[] else map[SuccessorSchemaHash := Str(r.successorSchemaHash)])
            + (if r.priorAmendmentHash == "" then map[] else map[PriorAmendmentHash := Str(r.priorAmendmentHash)])
  {
    var added, removed := SortStrings(r.invariantsAdded), SortStrings(r.invariantsRemoved);
    var base := map[
      AmendmentKind := Str(r.amendmentKind), Authority := Str(r.authority),
      InvariantsAdded := List(added), InvariantsRemoved := List(removed),
      PhaseCode := Str(r.phaseCode), PriorLawHash := Str(r.priorLawHash),
      SuccessorLawHash := Str(r.successorLawHash), Timestamp := Str(r.timestamp)];
    assert Core(r, added, removed) == base;
    LegsLayout(base, r);
  }

  /** A record with none of the optional values, such as one that moves only the law, is hashed over nine fields. */
  lemma PlainRecordVerifiesIff(c: Crypto, r: AmendmentRecord)
    requires r.priorLegendHash == "" && r.successorLegendHash == ""
    requires r.priorSchemaHash == "" && r.successorSchemaHash == "" && r.priorAmendmentHash == ""
    ensures VerifyHash(c, r) <==>
            r.amendmentHash == c.digest(map[
              AmendmentKind := Str(r.amendmentKind),
              Authority := Str(r.authority),
              InvariantsAdded := List(r.invariantsAdded),
              InvariantsRemoved := List(r.invariantsRemoved),
              PhaseCode := Str(r.phaseCode),
              PriorLawHash := Str(r.priorLawHash),
              SignatureField := Str(r.signature),
              SuccessorLawHash := Str(r.successorLawHash),
              Timestamp := Str(r.timestamp)])
  {
    assert Body(r) == map[
      AmendmentKind := Str(r.amendmentKind), Authority := Str(r.authority),
      InvariantsAdded := List(r.invariantsAdded), InvariantsRemoved := List(r.invariantsRemoved),
      PhaseCode := Str(r.phaseCode), PriorLawHash := Str(r.priorLawHash), SignatureField := Str(r.signature),
      SuccessorLawHash := Str(r.successorLawHash), Timestamp := Str(r.timestamp)];
  }

  /** The records differ at most in hash, signature and invariant lists. */
  predicate SameTerms(r: AmendmentRecord, s: AmendmentRecord) {
    r.(amendmentHash := s.amendmentHash, signature := s.signature,
       invariantsAdded := s.invariantsAdded, invariantsRemoved := s.invariantsRemoved) == s
  }

  lemma SameTermsFieldwise(r: AmendmentRecord, s: AmendmentRecord)
    ensures SameTerms(r, s) <==>
            && LegsOf(r) == LegsOf(s)
            && r.amendmentKind == s.amendmentKind && r.authority == s.authority
            && r.phaseCode == s.phaseCode && r.priorLawHash == s.priorLawHash
            && r.successorLawHash == s.successorLawHash && r.timestamp == s.timestamp
  {
  }

  lemma UnsignedBodiesSeparate(r: AmendmentRecord, a1: seq<string>, r1: seq<string>,
                               s: AmendmentRecord, a2: seq<string>, r2: seq<string>)
    ensures WithLegs(Core(r, a1, r1), LegsOf(r)) == WithLegs(Core(s, a2, r2), LegsOf(s)) <==>
            SameTerms(r, s) && a1 == a2 && r1 == r2
  {
    SameTermsFieldwise(r, s);
    CoreSeparates(r, a1, r1, s, a2, r2);
    LegsSeparate(Core(r, a1, r1), LegsOf(r), Core(s, a2, r2), LegsOf(s));
  }

  /** The signed payload commits every field but the signature and the hash, and the invariants as multisets. */
  lemma PayloadCommits(r: AmendmentRecord, s: AmendmentRecord)
    ensures SignedPayload(r) == SignedPayload(s) <==>
            && SameTerms(r, s)
            && multiset(r.invariantsAdded) == multiset(s.invariantsAdded)
            && multiset(r.invariantsRemoved) == multiset(s.invariantsRemoved)
  {
    SortedIffSameMultiset(r.invariantsAdded, s.invariantsAdded);
    SortedIffSameMultiset(r.invariantsRemoved, s.invariantsRemoved);
    UnsignedBodiesSeparate(r, SortStrings(r.invariantsAdded), SortStrings(r.invariantsRemoved),
                           s, SortStrings(s.invariantsAdded), SortStrings(s.invariantsRemoved));
  }

  /** Under a collision-free digest, the amendment hash of a verified record identifies the whole record. */
  lemma HashIdentifiesRecord(c: Crypto, r: AmendmentRecord, s: AmendmentRecord)
    requires c.InjectiveDigest() && VerifyHash(c, r) && VerifyHash(c, s)
    ensures r.amendmentHash == s.amendmentHash <==> r == s
  {
    BodyIsInjective(r, s);
  }

  // ---- Governor key succession -------------------------------------------------------------------

  datatype SuccessorLink = SuccessorLink(
    lineageHash: string,
    predecessorMosaic: string,
    successorMosaic: string,
    successorPubkey: Key,
    successionProof: string,
    authority: string,
    amendmentHash: string,
    timestamp: string)
  {
    function Lineage(): LineageBody {
      LineageBody(amendmentHash, authority, predecessorMosaic, successorMosaic, successorPubkey, timestamp)
    }

    predicate VerifySuccession(c: Crypto, predecessor: Key) {
      c.verify(predecessor, LineageMessage(Lineage()), successionProof)
    }
  }

  /** The link continues the key: it names the key's MosaicID and the key signed it. */
  predicate Continues(c: Crypto, current: Key, link: SuccessorLink) {
    link.predecessorMosaic == c.mosaic(current) && link.VerifySuccession(c, current)
  }

  /** The keys authorized from `current` on: as far as the links continue, and no further. */
  function KeysFrom(c: Crypto, current: Key, links: seq<SuccessorLink>): (keys: seq<Key>)
    ensures keys != [] && keys[0] == current
    decreases links
  {
    if links == [] || !Continues(c, current, links[0]) then [current]
    else [current] + KeysFrom(c, links[0].successorPubkey, links[1..])
  }

  /**
   * Every key after the first is vouched for by the one before it: the link names the earlier key's MosaicID,
   * and the earlier key signed the link's body. The keys stop only where the next link is not vouched for so.
   */
  lemma {:induction false} EachKeyVouchesForTheNext(c: Crypto, governor: Key, links: seq<SuccessorLink>)
    ensures var keys := KeysFrom(c, governor, links);
            && |keys| <= |links| + 1 && keys[0] == governor
            && (forall i :: 0 <= i < |keys| - 1 ==>
                  && keys[i + 1] == links[i].successorPubkey
                  && links[i].predecessorMosaic == c.mosaic(keys[i])
                  && c.verify(keys[i],
                              LineageMessage(LineageBody(
                                amendmentHash := links[i].amendmentHash,
                                authority := links[i].authority,
                                predecessorMosaic := links[i].predecessorMosaic,
                                successorMosaic := links[i].successorMosaic,
                                successorPubkey := links[i].successorPubkey,
                                timestamp := links[i].timestamp)),
                              links[i].successionProof))
            && (|keys| <= |links| ==>
                  var head, next := keys[|keys| - 1], links[|keys| - 1];
                  !(&& next.predecessorMosaic == c.mosaic(head)
                    && c.verify(head,
                                LineageMessage(LineageBody(
                                  amendmentHash := next.amendmentHash,
                                  authority := next.authority,
                                  predecessorMosaic := next.predecessorMosaic,
                                  successorMosaic := next.successorMosaic,
                                  successorPubkey := next.successorPubkey,
                                  timestamp := next.timestamp)),
                                next.successionProof)))
    decreases links
  {
    if links != [] && Continues(c, governor, links[0]) {
      var next := links[0].successorPubkey;
      EachKeyVouchesForTheNext(c, next, links[1..]);
      var keys, rest := KeysFrom(c, governor, links), KeysFrom(c, next, links[1..]);
      assert keys == [governor] + rest;
      assert forall i :: 0 < i < |keys| ==> keys[i] == rest[i - 1];
      assert forall i :: 0 < i < |links| ==> links[i] == links[1..][i - 1];
    }
  }

  lemma KeysStep(c: Crypto, keys: seq<Key>, current: Key, links: seq<SuccessorLink>)
    requires keys != [] && keys[|keys| - 1] == current && links != []
    ensures var done := keys[..|keys| - 1];
            var grown := keys + [links[0].successorPubkey];
            if Continues(c, current, links[0])
            then done + KeysFrom(c, current, links) ==
                 grown[..|grown| - 1] + KeysFrom(c, links[0].successorPubkey, links[1..])
            else done + KeysFrom(c, current, links) == keys
  {
    assert keys == keys[..|keys| - 1] + [current];
  }

  method AuthorizedKeys(c: Crypto, governor: Key, succession: seq<SuccessorLink>) returns (keys: seq<Key>)
    ensures keys == KeysFrom(c, governor, succession)
    ensures 1 <= |keys| <= |succession| + 1 && keys[0] == governor
    ensures forall i :: 0 <= i < |keys| - 1 ==>
              && keys[i + 1] == succession[i].successorPubkey
              && succession[i].predecessorMosaic == c.mosaic(keys[i])
              && c.verify(keys[i],
                          LineageMessage(LineageBody(
                            amendmentHash := succession[i].amendmentHash,
                            authority := succession[i].authority,
                            predecessorMosaic := succession[i].predecessorMosaic,
                            successorMosaic := succession[i].successorMosaic,
                            successorPubkey := succession[i].successorPubkey,
                            timestamp := succession[i].timestamp)),
                          succession[i].successionProof)
    ensures |keys| <= |succession| ==>
              var head, next := keys[|keys| - 1], succession[|keys| - 1];
              !(&& next.predecessorMosaic == c.mosaic(head)
                && c.verify(head,
                            LineageMessage(LineageBody(
                              amendmentHash := next.amendmentHash,
                              authority := next.authority,
                              predecessorMosaic := next.predecessorMosaic,
                              successorMosaic := next.successorMosaic,
                              successorPubkey := next.successorPubkey,
                              timestamp := next.timestamp)),
                            next.successionProof))
  {
    keys := [governor];
    var current := governor;
    for i := 0 to |succession|
      invariant keys != [] && keys[|keys| - 1] == current
      invariant KeysFrom(c, governor, succession) == keys[..|keys| - 1] + KeysFrom(c, current, succession[i..])
    {
      var link := succession[i];
      assert succession[i..][0] == link && succession[i..][1..] == succession[i + 1..];
      KeysStep(c, keys, current, succession[i..]);
      if link.predecessorMosaic != c.mosaic(current) {
        break;
      }
      if !link.VerifySuccession(c, current) {
        break;
      }
      keys := keys + [link.successorPubkey];
      current := link.successorPubkey;
    }
    assert keys == keys[..|keys| - 1] + [current];
    assert keys == KeysFrom(c, governor, succession);
    EachKeyVouchesForTheNext(c, governor, succession);
  }

  // ---- admissibility ---------------------------------------------------------------------------------

  datatype Frame = Frame(law: string, legend: string, schema: string)

  datatype PriorSuccessor = NoPrior | PriorFrame(frame: Frame) | PriorLaw(law: string)

  datatype Successor = FrameEntry(frame: Frame) | LawEntry(law: string)

  datatype Context = Context(
    prior: Frame,
    successor: Frame,
    governor: Key,
    priorSuccessor: PriorSuccessor,
    existing: set<Successor>,
    succession: seq<SuccessorLink>,
    historical: bool,
    predecessorHash: Option<string>)

  datatype Reason =
    | BadKind | BadHash | PriorLawMismatch | SuccessorLawMismatch
    | LegPriorMismatch | LegSuccessorMismatch | UncommittedLegMoved
    | Unsigned | UnknownAuthority | RetiredKey | BadSignature
    | LineageBroken | SuccessorPresent
    | NoPredecessor | RecordChainBroken

  datatype Verdict = Admitted | Refused(reason: Reason)

  /** One leg the record may commit: `committedSuccessor` is empty when it does not. */
  function LegVerdict(committedPrior: string, committedSuccessor: string, prior: string, successor: string): Verdict {
    if committedSuccessor != "" then
      if committedPrior != prior then Refused(LegPriorMismatch)
      else if committedSuccessor != successor then Refused(LegSuccessorMismatch)
      else Admitted
    else if prior != successor then Refused(UncommittedLegMoved)
    else Admitted
  }

  /** The key's MosaicID is the authority. */
  function Named(c: Crypto, authority: string): Key -> bool {
    (k: Key) => c.mosaic(k) == authority
  }

  function ActiveKey(c: Crypto, governor: Key, succession: seq<SuccessorLink>): Key {
    var keys := KeysFrom(c, governor, succession);
    keys[|keys| - 1]
  }

  /** Condition 3: a signature by the key of its era. */
  function AuthorityVerdict(c: Crypto, r: AmendmentRecord, x: Context): Verdict {
    if r.signature == "" then Refused(Unsigned)
    else
      var signer := FirstMatch(KeysFrom(c, x.governor, x.succession), Named(c, r.authority));
      if signer.None? then Refused(UnknownAuthority)
      else if signer.value != ActiveKey(c, x.governor, x.succession) && !x.historical then Refused(RetiredKey)
      else if !c.verify(signer.value, AmendmentMessage(SignedPayload(r)), r.signature) then Refused(BadSignature)
      else Admitted
  }

  /** Condition 4: append-only lineage, keyed on frames when the caller supplies frames and on law hashes otherwise. */
  function LineageVerdict(r: AmendmentRecord, x: Context): Verdict {
    if x.priorSuccessor.PriorFrame? && x.prior != x.priorSuccessor.frame then Refused(LineageBroken)
    else if x.priorSuccessor.PriorLaw? && r.priorLawHash != x.priorSuccessor.law then Refused(LineageBroken)
    else if if exists e :: e in x.existing && e.FrameEntry? then FrameEntry(x.successor) in x.existing
            else LawEntry(r.successorLawHash) in x.existing then Refused(SuccessorPresent)
    else Admitted
  }

  /** Condition 4b: a record that commits its predecessor's hash must name it correctly. */
  function RecordChainVerdict(r: AmendmentRecord, x: Context): Verdict {
    if r.priorAmendmentHash == "" then Admitted
    else if x.predecessorHash.None? then Refused(NoPredecessor)
    else if r.priorAmendmentHash != x.predecessorHash.value then Refused(RecordChainBroken)
    else Admitted
  }

  /** The first failing condition, in the order they are checked. */
  function IsAdmissible(c: Crypto, r: AmendmentRecord, x: Context): Verdict {
    if r.amendmentKind != "genesis" && r.amendmentKind != "ordinary" then Refused(BadKind)
    else if !VerifyHash(c, r) then Refused(BadHash)
    else if r.priorLawHash != x.prior.law then Refused(PriorLawMismatch)
    else if r.successorLawHash != x.successor.law then Refused(SuccessorLawMismatch)
    else
      var legend := LegVerdict(r.priorLegendHash, r.successorLegendHash, x.prior.legend, x.successor.legend);
      if legend.Refused? then legend
      else
        var schema := LegVerdict(r.priorSchemaHash, r.successorSchemaHash, x.prior.schema, x.successor.schema);
        if schema.Refused? then schema
        else
          var authority := AuthorityVerdict(c, r, x);
          if authority.Refused? then authority
          else
            var lineage := LineageVerdict(r, x);
            if lineage.Refused? then lineage else RecordChainVerdict(r, x)
  }
}
