/** When the finality hash does not depend on the order in which attestations arrive, and what it identifies. */
module FinalityHashOrder {
  import opened Collections
  import opened Ordering
  import opened Finality
  import opened FinalityProperties

  type Digest = seq<string> -> string

  ghost predicate Injective(digest: Digest) {
    forall a, b :: digest(a) == digest(b) ==> a == b
  }

  /** No validator has two accepted attestations with different signatures. */
  ghost predicate OneSignatureEach(q: Query) {
    forall a, b ::
      && a in q.attestations && b in q.attestations && Accepts(q, a) && Accepts(q, b)
      && a.mosaicRoot == b.mosaicRoot
      ==> a.signature == b.signature
  }

  ghost predicate OrderFree(q: Query, digest: Digest) {
    forall p :: multiset(p) == multiset(q.attestations) ==>
                  FinalityHash(q.(attestations := p), digest) == FinalityHash(q, digest)
  }

  lemma PermutationFacts(q: Query, p: seq<Attestation>)
    requires multiset(p) == multiset(q.attestations)
    ensures Elements(p) == Elements(q.attestations)
    ensures forall a :: Accepts(q.(attestations := p), a) <==> Accepts(q, a)
  {
    forall a
      ensures a in p <==> a in q.attestations
    {
      assert a in multiset(p) <==> a in multiset(q.attestations);
    }
    assert forall v :: Equivocates(p, v) <==> Equivocates(q.attestations, v);
  }

  lemma {:induction false} SameAcceptsSameValid(q: Query, p: Query, prefix: seq<Attestation>)
    requires forall a :: Accepts(p, a) <==> Accepts(q, a)
    ensures ValidOf(p, prefix) == ValidOf(q, prefix)
  {
    if prefix != [] {
      SameAcceptsSameValid(q, p, prefix[..|prefix| - 1]);
    }
  }

  /** Two lists with one entry per root, the same roots, and root-wise equal signatures. */
  lemma {:induction false} SameSignatures(x: seq<Attestation>, y: seq<Attestation>)
    requires |Roots(x)| == |x| && |Roots(y)| == |y| && Roots(x) == Roots(y)
    requires forall a, b :: a in x && b in y && a.mosaicRoot == b.mosaicRoot ==> a.signature == b.signature
    ensures multiset(Signatures(x)) == multiset(Signatures(y))
  {
    if x != [] {
      var init, a := x[..|x| - 1], x[|x| - 1];
      assert x == init + [a];
      assert a.mosaicRoot in Roots(y);
      var k :| 0 <= k < |y| && y[k].mosaicRoot == a.mosaicRoot;
      var rest := y[..k] + y[k + 1..];
      assert y == y[..k] + [y[k]] + y[k + 1..];
      assert x == init + [a] + [] && init + [] == init;
      SplitRoots(init, [], a);
      SplitRoots(y[..k], y[k + 1..], y[k]);
      SameSignatures(init, rest);
      SignaturesOfSplit(init, [], a);
      SignaturesOfSplit(y[..k], y[k + 1..], y[k]);
    } else {
      assert Roots(x) == {};
      assert y == [];
    }
  }

  lemma SplitRoots(left: seq<Attestation>, right: seq<Attestation>, a: Attestation)
    requires |Roots(left + [a] + right)| == |left| + 1 + |right|
    ensures Roots(left + right) == Roots(left + [a] + right) - {a.mosaicRoot}
    ensures |Roots(left + right)| == |left + right|
  {
    var whole := left + [a] + right;
    var rest := left + right;
    assert forall x :: x in whole <==> x in rest || x == a;
    RootsCardinality(rest);
    assert Roots(whole) == Roots(rest) + {a.mosaicRoot} by {
      assert a in whole;
    }
    assert Roots(rest) == Roots(whole) || Roots(rest) == Roots(whole) - {a.mosaicRoot};
  }

  lemma {:induction false} RootsCardinality(x: seq<Attestation>)
    ensures |Roots(x)| <= |x|
  {
    if x != [] {
      RootsCardinality(x[..|x| - 1]);
      RootsOfAppend(x[..|x| - 1], x[|x| - 1]);
      assert x == x[..|x| - 1] + [x[|x| - 1]];
    }
  }

  lemma SignaturesOfSplit(left: seq<Attestation>, right: seq<Attestation>, a: Attestation)
    ensures multiset(Signatures(left + [a] + right)) == multiset(Signatures(left + right)) + multiset{a.signature}
  {
    assert Signatures(left + [a] + right) == Signatures(left) + [a.signature] + Signatures(right);
    assert Signatures(left + right) == Signatures(left) + Signatures(right);
  }

  lemma OneSignatureEachIsOrderFree(q: Query, digest: Digest, p: seq<Attestation>)
    requires OneSignatureEach(q)
    requires multiset(p) == multiset(q.attestations)
    ensures FinalityHash(q.(attestations := p), digest) == FinalityHash(q, digest)
  {
    var r := q.(attestations := p);
    PermutationFacts(q, p);
    OrderIndependent(q, p);
    SameElements(p, q.attestations);
    ValidOfExact(q, q.attestations);
    ValidOfExact(r, p);
    SameSignatures(Valid(r), Valid(q));
    SortedIffSameMultiset(Signatures(Valid(r)), Signatures(Valid(q)));
  }

  /** Two accepted attestations of one validator at the front: whichever comes first is the one kept. */
  lemma {:induction false} FirstComerIsKept(q: Query, a: Attestation, b: Attestation, rest: seq<Attestation>)
    returns (tail: seq<Attestation>)
    requires Accepts(q, a) && Accepts(q, b) && a.mosaicRoot == b.mosaicRoot
    ensures ValidOf(q, [a, b] + rest) == [a] + tail
    ensures ValidOf(q, [b, a] + rest) == [b] + tail
  {
    if rest == [] {
      PairKeepsFirst(q, a, b);
      PairKeepsFirst(q, b, a);
      assert [a, b] + rest == [a, b] && [b, a] + rest == [b, a];
      tail := [];
    } else {
      var init, last := rest[..|rest| - 1], rest[|rest| - 1];
      var shorter := FirstComerIsKept(q, a, b, init);
      AppendSnoc([a, b], rest);
      AppendSnoc([b, a], rest);
      HeadStays(q, [a, b] + init, a, shorter, last);
      HeadStays(q, [b, a] + init, b, shorter, last);
      SameRootsBehindHead(a, b, shorter);
      tail := if Accepts(q, last) && last.mosaicRoot !in Roots([a] + shorter) then shorter + [last] else shorter;
    }
  }

  lemma HeadStays(q: Query, init: seq<Attestation>, head: Attestation, tail: seq<Attestation>, last: Attestation)
    requires ValidOf(q, init) == [head] + tail
    ensures ValidOf(q, init + [last]) ==
            [head] + if Accepts(q, last) && last.mosaicRoot !in Roots([head] + tail) then tail + [last] else tail
  {
    ValidSnoc(q, init, last);
    assert ([head] + tail) + [last] == [head] + (tail + [last]);
  }

  lemma PairKeepsFirst(q: Query, a: Attestation, b: Attestation)
    requires Accepts(q, a) && a.mosaicRoot == b.mosaicRoot
    ensures ValidOf(q, [a, b]) == [a]
  {
    ValidSnoc(q, [], a);
    ValidSnoc(q, [a], b);
    assert [] + [a] == [a] && [a] + [b] == [a, b];
    RootsOfAppend([], a);
  }

  lemma SameRootsBehindHead(a: Attestation, b: Attestation, tail: seq<Attestation>)
    requires a.mosaicRoot == b.mosaicRoot
    ensures Roots([a] + tail) == Roots([b] + tail)
  {
    assert forall z :: z in [a] + tail <==> z == a || z in tail;
    assert forall z :: z in [b] + tail <==> z == b || z in tail;
  }

  /** The validity list of the permuted call, computed over the original call's filters. */
  lemma PermutedValid(q: Query, p: seq<Attestation>)
    requires multiset(p) == multiset(q.attestations)
    ensures Valid(q.(attestations := p)) == ValidOf(q, p)
    ensures Final(q.(attestations := p)) == Final(q)
  {
    PermutationFacts(q, p);
    SameAcceptsSameValid(q, q.(attestations := p), p);
    OrderIndependent(q, p);
  }

  lemma DifferentHeadsDifferentSignatures(a: Attestation, b: Attestation, tail: seq<Attestation>)
    requires a.signature != b.signature
    ensures SortStrings(Signatures([a] + tail)) != SortStrings(Signatures([b] + tail))
  {
    assert [a] + tail == [] + [a] + tail && [b] + tail == [] + [b] + tail;
    SignaturesOfSplit([], tail, a);
    SignaturesOfSplit([], tail, b);
    assert multiset(Signatures([a] + tail))[a.signature] != multiset(Signatures([b] + tail))[a.signature];
    SortedIffSameMultiset(Signatures([a] + tail), Signatures([b] + tail));
  }

  lemma FirstComerChoosesSignature(q: Query, a: Attestation, b: Attestation)
    returns (p1: seq<Attestation>, p2: seq<Attestation>)
    requires a in q.attestations && b in q.attestations && Accepts(q, a) && Accepts(q, b)
    requires a.mosaicRoot == b.mosaicRoot && a.signature != b.signature
    ensures multiset(p1) == multiset(q.attestations) && multiset(p2) == multiset(q.attestations)
    ensures SortStrings(Signatures(ValidOf(q, p1))) != SortStrings(Signatures(ValidOf(q, p2)))
  {
    var rest := PulledOut(q.attestations, a, b);
    p1, p2 := [a, b] + rest, [b, a] + rest;
    var tail := FirstComerIsKept(q, a, b, rest);
    DifferentHeadsDifferentSignatures(a, b, tail);
  }

  lemma FirstComerChangesHash(q: Query, digest: Digest, a: Attestation, b: Attestation)
    requires Injective(digest) && Final(q)
    requires a in q.attestations && b in q.attestations && Accepts(q, a) && Accepts(q, b)
    requires a.mosaicRoot == b.mosaicRoot && a.signature != b.signature
    ensures !OrderFree(q, digest)
  {
    var p1, p2 := FirstComerChoosesSignature(q, a, b);
    HashOfPermuted(q, digest, p1);
    HashOfPermuted(q, digest, p2);
  }

  lemma HashOfPermuted(q: Query, digest: Digest, p: seq<Attestation>)
    requires multiset(p) == multiset(q.attestations) && Final(q)
    ensures FinalityHash(q.(attestations := p), digest) == digest(SortStrings(Signatures(ValidOf(q, p))))
  {
    PermutedValid(q, p);
  }

  lemma PulledOut(s: seq<Attestation>, a: Attestation, b: Attestation) returns (rest: seq<Attestation>)
    requires a in s && b in s && a != b
    ensures multiset([a, b] + rest) == multiset(s) && multiset([b, a] + rest) == multiset(s)
  {
    var withoutA := Without(s, a);
    rest := Without(withoutA, b);
    PairInFront(a, b, rest);
    PairInFront(b, a, rest);
  }

  lemma PairInFront(a: Attestation, b: Attestation, rest: seq<Attestation>)
    ensures multiset([a, b] + rest) == multiset{a} + (multiset{b} + multiset(rest))
  {
  }

  ghost function Without(s: seq<Attestation>, a: Attestation): (r: seq<Attestation>)
    requires a in s
    ensures multiset(s) == multiset{a} + multiset(r)
    ensures forall x :: x in s && x != a ==> x in r
  {
    var i :| 0 <= i < |s| && s[i] == a;
    assert s == s[..i] + [a] + s[i + 1..];
    s[..i] + s[i + 1..]
  }

  /**
   * Sorting the signatures does not by itself make the finality hash independent of arrival order: it is so
   * exactly below the quorum or when no counted validator has two accepted attestations signed differently.
   */
  lemma FinalityHashOrderFreeIff(q: Query, digest: Digest)
    requires Injective(digest)
    ensures OrderFree(q, digest) <==> !Final(q) || OneSignatureEach(q)
  {
    if !Final(q) {
      forall p | multiset(p) == multiset(q.attestations)
        ensures FinalityHash(q.(attestations := p), digest) == FinalityHash(q, digest)
      {
        PermutationFacts(q, p);
        OrderIndependent(q, p);
      }
    } else if OneSignatureEach(q) {
      forall p | multiset(p) == multiset(q.attestations)
        ensures FinalityHash(q.(attestations := p), digest) == FinalityHash(q, digest)
      {
        OneSignatureEachIsOrderFree(q, digest, p);
      }
    } else {
      var a, b :|
        && a in q.attestations && b in q.attestations && Accepts(q, a) && Accepts(q, b)
        && a.mosaicRoot == b.mosaicRoot && a.signature != b.signature;
      FirstComerChangesHash(q, digest, a, b);
    }
  }

  /**
   * The failing case occurs: one sealed validator that attests a hash twice, at times it signs differently,
   * is final with a hash that depends on which attestation came first.
   */
  lemma TwoTimestampsMakeOrderMatter(ring: Keyring, v: string, hash: string, t1: string, t2: string, digest: Digest)
    requires ring.Works() && Injective(digest)
    requires Vote(ring, v, hash, 0, t1).signature != Vote(ring, v, hash, 0, t2).signature
    ensures var pool := [Vote(ring, v, hash, 0, t1), Vote(ring, v, hash, 0, t2)];
            var q := Query(pool, SealValidatorSet([v]), hash, ring.sigOk);
            Final(q) && !OneSignatureEach(q) && !OrderFree(q, digest)
  {
    var pool := [Vote(ring, v, hash, 0, t1), Vote(ring, v, hash, 0, t2)];
    var q := Query(pool, SealValidatorSet([v]), hash, ring.sigOk);
    assert pool[0] in pool && pool[1] in pool && v in [v];
    assert v in SealValidatorSet([v]).validators;
    assert !Equivocates(pool, v);
    assert Accepts(q, pool[0]) && Accepts(q, pool[1]);
    AcceptedExact(q);
    assert v in Accepted(q);
    SubsetCardinality({v}, Accepted(q));
    FinalityHashOrderFreeIff(q, digest);
  }

  // ---- what the finality hash identifies ---------------------------------------------------------

  /** A signature verifies for at most one payload, under whatever key. */
  ghost predicate OnePayloadEach(sigOk: SignatureCheck) {
    forall p1, p2, signature, k1, k2 :: sigOk(p1, signature, k1) && sigOk(p2, signature, k2) ==> p1 == p2
  }

  /** What a call kept: the payloads counted, with their signatures. */
  ghost function Kept(q: Query): set<(SigPayload, string)> {
    set a | a in Valid(q) :: (a.Payload(), a.signature)
  }

  lemma SameSignaturesSameKept(q1: Query, q2: Query)
    requires q1.sigOk == q2.sigOk && OnePayloadEach(q1.sigOk)
    requires multiset(Signatures(Valid(q1))) == multiset(Signatures(Valid(q2)))
    ensures Kept(q1) <= Kept(q2)
  {
    ValidOfExact(q1, q1.attestations);
    ValidOfExact(q2, q2.attestations);
    forall a | a in Valid(q1)
      ensures (a.Payload(), a.signature) in Kept(q2)
    {
      var i :| 0 <= i < |Valid(q1)| && Valid(q1)[i] == a;
      assert Signatures(Valid(q1))[i] in multiset(Signatures(Valid(q2)));
      var j :| 0 <= j < |Valid(q2)| && Signatures(Valid(q2))[j] == a.signature;
      var b := Valid(q2)[j];
      assert b in Valid(q2) && a.Verify(q1.sigOk) && b.Verify(q1.sigOk);
      assert a.Payload() == b.Payload();
    }
  }

  lemma SameKeptSameSignatures(q1: Query, q2: Query)
    requires Kept(q1) == Kept(q2)
    ensures multiset(Signatures(Valid(q1))) == multiset(Signatures(Valid(q2)))
  {
    ValidOfExact(q1, q1.attestations);
    ValidOfExact(q2, q2.attestations);
    SameKeptSameRoots(q1, q2);
    SameKeptSameRoots(q2, q1);
    forall a, b | a in Valid(q1) && b in Valid(q2) && a.mosaicRoot == b.mosaicRoot
      ensures a.signature == b.signature
    {
      assert (a.Payload(), a.signature) in Kept(q2);
      var c :| c in Valid(q2) && (c.Payload(), c.signature) == (a.Payload(), a.signature);
      assert c == b;
    }
    SameSignatures(Valid(q1), Valid(q2));
  }

  lemma SameKeptSameRoots(q1: Query, q2: Query)
    requires Kept(q1) <= Kept(q2)
    ensures Roots(Valid(q1)) <= Roots(Valid(q2))
  {
    forall a | a in Valid(q1)
      ensures a.mosaicRoot in Roots(Valid(q2))
    {
      assert (a.Payload(), a.signature) in Kept(q2);
      var c :| c in Valid(q2) && (c.Payload(), c.signature) == (a.Payload(), a.signature);
      assert c.mosaicRoot == a.mosaicRoot;
    }
  }

  /** Two final calls have one finality hash exactly when they kept the same signed payloads. */
  lemma FinalityHashIdentifiesKeptIff(q1: Query, q2: Query, digest: Digest)
    requires Injective(digest) && q1.sigOk == q2.sigOk && OnePayloadEach(q1.sigOk)
    requires Final(q1) && Final(q2)
    ensures FinalityHash(q1, digest) == FinalityHash(q2, digest) <==> Kept(q1) == Kept(q2)
  {
    SortedIffSameMultiset(Signatures(Valid(q1)), Signatures(Valid(q2)));
    if FinalityHash(q1, digest) == FinalityHash(q2, digest) {
      SameSignaturesSameKept(q1, q2);
      SameSignaturesSameKept(q2, q1);
    }
    if Kept(q1) == Kept(q2) {
      SameKeptSameSignatures(q1, q2);
    }
  }

  /** So the finality hash of a final call tells which constitutional hash was agreed on, and by whom. */
  lemma FinalityHashIdentifiesAgreement(q1: Query, q2: Query, digest: Digest)
    requires Injective(digest) && q1.sigOk == q2.sigOk && OnePayloadEach(q1.sigOk)
    requires Final(q1) && Final(q2) && FinalityHash(q1, digest) == FinalityHash(q2, digest)
    ensures q1.constitutionalHash == q2.constitutionalHash && Accepted(q1) == Accepted(q2)
  {
    FinalityHashIdentifiesKeptIff(q1, q2, digest);
    SameKeptSameRoots(q1, q2);
    SameKeptSameRoots(q2, q1);
    ValidOfExact(q1, q1.attestations);
    ValidOfExact(q2, q2.attestations);
    var a := Valid(q1)[0];
    assert a in Valid(q1) && (a.Payload(), a.signature) in Kept(q2);
    var b :| b in Valid(q2) && (b.Payload(), b.signature) == (a.Payload(), a.signature);
    assert b.constitutionalHash == a.constitutionalHash;
  }
}
