/** Intent declarations, revocations and their store (ugk/intent.py). */
module Intent {
  import opened Collections
  import opened Ordering

  datatype IntentDeclaration = IntentDeclaration(
    declarationHash: string,
    declaredOps: seq<string>,
    scopeType: string,
    scopeRef: string,
    authority: string,
    timestamp: string)

  /** Everything a declaration's hash commits to. */
  datatype IntentBody = IntentBody(
    authority: string,
    declaredOps: seq<string>,
    scopeRef: string,
    scopeType: string,
    timestamp: string)

  datatype IntentRevocation = IntentRevocation(
    revocationHash: string,
    revokedDeclarationHash: string,
    authority: string,
    timestamp: string)

  type BodyDigest = IntentBody -> string

  ghost predicate Injective(digest: BodyDigest) {
    forall a, b :: digest(a) == digest(b) ==> a == b
  }

  function BodyOf(d: IntentDeclaration): IntentBody {
    IntentBody(d.authority, d.declaredOps, d.scopeRef, d.scopeType, d.timestamp)
  }

  predicate VerifyHash(d: IntentDeclaration, digest: BodyDigest) {
    digest(BodyOf(d)) == d.declarationHash
  }

  /** The clock is a parameter: an omitted timestamp is filled in by the caller. */
  function Create(declaredOps: seq<string>, authority: string, scopeType: string, scopeRef: string,
                  timestamp: string, digest: BodyDigest): (d: IntentDeclaration)
    ensures VerifyHash(d, digest)
    ensures Elements(d.declaredOps) == Elements(declaredOps)
    ensures SortedBy(StringLeq, d.declaredOps) && NoDuplicates(d.declaredOps)
    ensures d.authority == authority && d.scopeType == scopeType && d.scopeRef == scopeRef && d.timestamp == timestamp
    ensures d.declarationHash == digest(IntentBody(
                                          authority := authority,
                                          declaredOps := d.declaredOps,
                                          scopeRef := scopeRef,
                                          scopeType := scopeType,
                                          timestamp := timestamp))
  {
    SortedSetIsCanonical(declaredOps, declaredOps);
    SortedSetIsSorted(declaredOps);
    var ops := SortedSet(declaredOps);
    var body := IntentBody(authority, ops, scopeRef, scopeType, timestamp);
    IntentDeclaration(digest(body), ops, scopeType, scopeRef, authority, timestamp)
  }

  /** Content addressing: equal hashes mean the same op set, scope, authority and time, however the ops were listed. */
  lemma HashIdentifiesContent(ops1: seq<string>, ops2: seq<string>, a1: string, a2: string, t1: string, t2: string,
                              ref1: string, ref2: string, ts1: string, ts2: string, digest: BodyDigest)
    requires Injective(digest)
    ensures Create(ops1, a1, t1, ref1, ts1, digest).declarationHash ==
            Create(ops2, a2, t2, ref2, ts2, digest).declarationHash <==>
            Elements(ops1) == Elements(ops2) && a1 == a2 && t1 == t2 && ref1 == ref2 && ts1 == ts2
  {
    SortedSetIsCanonical(ops1, ops2);
    var b1 := BodyOf(Create(ops1, a1, t1, ref1, ts1, digest));
    var b2 := BodyOf(Create(ops2, a2, t2, ref2, ts2, digest));
    assert digest(b1) == digest(b2) <==> b1 == b2;
  }

  // ---- the two tables ------------------------------------------------------------------

  /** A row of intent_declarations; declarationHash is its primary key. */
  datatype Row = Row(declaration: IntentDeclaration, revoked: bool)

  predicate HasRow(rows: seq<Row>, hash: string) {
    exists i :: 0 <= i < |rows| && rows[i].declaration.declarationHash == hash
  }

  ghost predicate KeysUnique(rows: seq<Row>) {
    forall i, j :: 0 <= i < j < |rows| ==> rows[i].declaration.declarationHash != rows[j].declaration.declarationHash
  }

  /** INSERT OR IGNORE with revoked defaulting to false. */
  function Declared(rows: seq<Row>, d: IntentDeclaration): seq<Row> {
    if HasRow(rows, d.declarationHash) then rows else rows + [Row(d, false)]
  }

  /** UPDATE ... SET revoked=1 WHERE declaration_hash=?; nothing happens to a hash that is not stored. */
  function Revoked(rows: seq<Row>, hash: string): (r: seq<Row>)
    ensures |r| == |rows|
    ensures forall i :: 0 <= i < |rows| ==>
                          r[i] == rows[i].(revoked := rows[i].revoked || rows[i].declaration.declarationHash == hash)
  {
    seq(|rows|, i requires 0 <= i < |rows| =>
      rows[i].(revoked := rows[i].revoked || rows[i].declaration.declarationHash == hash))
  }

  /** Reading a row back sorts its ops. */
  function FromRow(row: Row): IntentDeclaration {
    row.declaration.(declaredOps := SortStrings(row.declaration.declaredOps))
  }

  predicate InScope(row: Row, scopeRef: string) {
    !row.revoked && (row.declaration.scopeRef == "" || row.declaration.scopeRef == scopeRef)
  }

  /** SELECT ... WHERE revoked=0 AND (scope_ref='' OR scope_ref=?), in table order. */
  function Active(rows: seq<Row>, scopeRef: string): seq<IntentDeclaration> {
    if rows == [] then []
    else (if InScope(rows[0], scopeRef) then [FromRow(rows[0])] else []) + Active(rows[1..], scopeRef)
  }

  lemma {:induction false} ActiveExact(rows: seq<Row>, scopeRef: string)
    ensures forall d :: d in Active(rows, scopeRef) <==>
                          exists i :: 0 <= i < |rows| && InScope(rows[i], scopeRef) && d == FromRow(rows[i])
  {
    if rows != [] {
      ActiveExact(rows[1..], scopeRef);
      forall d
        ensures d in Active(rows, scopeRef) <==>
                exists i :: 0 <= i < |rows| && InScope(rows[i], scopeRef) && d == FromRow(rows[i])
      {
        if i :| 0 <= i < |rows[1..]| && InScope(rows[1..][i], scopeRef) && d == FromRow(rows[1..][i]) {
          assert rows[i + 1] == rows[1..][i];
        }
        if i :| 0 <= i < |rows| && InScope(rows[i], scopeRef) && d == FromRow(rows[i]) {
          assert i > 0 ==> rows[1..][i - 1] == rows[i];
        }
      }
    }
  }

  /** The active declarations are the rows in scope as read back, in table order. */
  lemma ActiveInTableOrder(rows: seq<Row>, scopeRef: string)
    ensures var selected := set i | && 0 <= i < |rows| && !rows[i].revoked
                                    && (rows[i].declaration.scopeRef == "" || rows[i].declaration.scopeRef == scopeRef);
            && |Active(rows, scopeRef)| == |Picked(rows, selected)|
            && forall k :: 0 <= k < |Active(rows, scopeRef)| ==>
                 Active(rows, scopeRef)[k] == FromRow(Picked(rows, selected)[k])
  {
    var selected := set i | && 0 <= i < |rows| && !rows[i].revoked
                            && (rows[i].declaration.scopeRef == "" || rows[i].declaration.scopeRef == scopeRef);
    ActivePrefix(rows, scopeRef, selected, |rows|);
    assert rows[..|rows|] == rows;
  }

  lemma {:induction false} ActivePrefix(rows: seq<Row>, scopeRef: string, selected: set<int>, n: nat)
    requires n <= |rows|
    requires forall i :: 0 <= i < |rows| ==> (i in selected <==> InScope(rows[i], scopeRef))
    ensures var active, picked := Active(rows[..n], scopeRef), Picked(rows[..n], selected);
            |active| == |picked| && forall k :: 0 <= k < |active| ==> active[k] == FromRow(picked[k])
  {
    if n > 0 {
      assert rows[..n][..n - 1] == rows[..n - 1] && rows[..n] == rows[..n - 1] + [rows[n - 1]];
      ActivePrefix(rows, scopeRef, selected, n - 1);
      ActiveSnoc(rows[..n - 1], rows[n - 1], scopeRef);
    }
  }

  lemma {:induction false} ActiveSnoc(rows: seq<Row>, row: Row, scopeRef: string)
    ensures Active(rows + [row], scopeRef) ==
            Active(rows, scopeRef) + if InScope(row, scopeRef) then [FromRow(row)] else []
  {
    if rows != [] {
      assert (rows + [row])[1..] == rows[1..] + [row];
      ActiveSnoc(rows[1..], row, scopeRef);
    } else {
      assert ([] + [row])[1..] == [] && [] + [row] == [row];
    }
  }

  class IntentStore {
    var rows: seq<Row>
    var revocations: seq<IntentRevocation>

    ghost predicate Valid()
      reads this
    {
      && KeysUnique(rows)
      && forall i, j :: 0 <= i < j < |revocations| ==> revocations[i].revocationHash != revocations[j].revocationHash
    }

    constructor ()
      ensures Valid() && rows == [] && revocations == []
    {
      rows, revocations := [], [];
    }

    method Declare(declaration: IntentDeclaration)
      requires Valid()
      modifies this`rows
      ensures Valid() && rows == Declared(old(rows), declaration)
    {
      if !HasRow(rows, declaration.declarationHash) {
        rows := rows + [Row(declaration, false)];
      }
    }

    method Revoke(revocation: IntentRevocation)
      requires Valid()
      modifies this
      ensures Valid() && rows == Revoked(old(rows), revocation.revokedDeclarationHash)
      ensures revocations == old(revocations)
                             + if exists r :: r in old(revocations) && r.revocationHash == revocation.revocationHash
                               then [] else [revocation]
    {
      if !(exists r :: r in revocations && r.revocationHash == revocation.revocationHash) {
        revocations := revocations + [revocation];
      }
      rows := Revoked(rows, revocation.revokedDeclarationHash);
    }

    method Get(declarationHash: string) returns (d: Option<IntentDeclaration>)
      ensures d.None? <==> !HasRow(rows, declarationHash)
      ensures d.Some? ==> exists i :: 0 <= i < |rows| && d.value == FromRow(rows[i])
                                      && d.value.declarationHash == declarationHash
    {
      for i := 0 to |rows|
        invariant !HasRow(rows[..i], declarationHash)
      {
        if rows[i].declaration.declarationHash == declarationHash {
          return Some(FromRow(rows[i]));
        }
      }
      assert rows[..|rows|] == rows;
      d := None;
    }

    method IsRevoked(declarationHash: string) returns (revoked: bool)
      requires Valid()
      ensures revoked <==> exists i :: 0 <= i < |rows| && rows[i].revoked
                                       && rows[i].declaration.declarationHash == declarationHash
    {
      revoked := false;
      for i := 0 to |rows|
        invariant !revoked
        invariant forall k :: 0 <= k < i ==> rows[k].declaration.declarationHash != declarationHash
      {
        if rows[i].declaration.declarationHash == declarationHash {
          return rows[i].revoked;
        }
      }
    }

    method ActiveDeclarations(scopeRef: string) returns (active: seq<IntentDeclaration>)
      ensures active == Active(rows, scopeRef)
      ensures forall d :: d in active <==>
                            exists i :: 0 <= i < |rows| && InScope(rows[i], scopeRef) && d == FromRow(rows[i])
      ensures var selected := set i | && 0 <= i < |rows| && !rows[i].revoked
                                      && (rows[i].declaration.scopeRef == ""
                                          || rows[i].declaration.scopeRef == scopeRef);
              && |active| == |Picked(rows, selected)|
              && forall k :: 0 <= k < |active| ==>
                   active[k] == Picked(rows, selected)[k].declaration.(
                                  declaredOps := SortStrings(Picked(rows, selected)[k].declaration.declaredOps))
    {
      active := Active(rows, scopeRef);
      ActiveExact(rows, scopeRef);
      ActiveInTableOrder(rows, scopeRef);
    }
  }

  /** A declaration made by Create, stored and read back under its hash, is unchanged and still verifies. */
  lemma CreatedSurvivesTheStore(ops: seq<string>, authority: string, scopeType: string, scopeRef: string,
                                timestamp: string, digest: BodyDigest, revoked: bool)
    ensures var d := Create(ops, authority, scopeType, scopeRef, timestamp, digest);
            FromRow(Row(d, revoked)) == d && VerifyHash(FromRow(Row(d, revoked)), digest)
  {
    StringOrder();
    SortSorts(StringLeq, Distinct(ops));
    SortSorts(StringLeq, SortedSet(ops));
    SortedIsUnique(StringLeq, SortStrings(SortedSet(ops)), SortedSet(ops));
  }

  /** In general the stored copy verifies exactly when the ops were already in order. */
  lemma StoredCopyVerifiesIff(d: IntentDeclaration, digest: BodyDigest)
    requires Injective(digest) && VerifyHash(d, digest)
    ensures VerifyHash(FromRow(Row(d, false)), digest) <==> SortedBy(StringLeq, d.declaredOps)
  {
    StringOrder();
    SortSorts(StringLeq, d.declaredOps);
    if SortedBy(StringLeq, d.declaredOps) {
      SortedIsUnique(StringLeq, SortStrings(d.declaredOps), d.declaredOps);
    }
  }
}
