/** Coverage over whole store histories: what a sequence of declares and revokes leaves active. */
module IntentHistory {
  import opened Collections
  import opened Ordering
  import opened Intent
  import opened Will

  datatype Event =
    | DeclareEvent(declaration: IntentDeclaration)
    | RevokeEvent(revocation: IntentRevocation)
  {
    predicate Declares(hash: string) {
      DeclareEvent? && declaration.declarationHash == hash
    }

    predicate Revokes(hash: string) {
      RevokeEvent? && revocation.revokedDeclarationHash == hash
    }
  }

  function Apply(rows: seq<Row>, e: Event): seq<Row> {
    match e
    case DeclareEvent(d) => Declared(rows, d)
    case RevokeEvent(r) => Revoked(rows, r.revokedDeclarationHash)
  }

  /** The declarations table after a run of events. */
  function Replay(rows: seq<Row>, events: seq<Event>): seq<Row> {
    if events == [] then rows
    else Apply(Replay(rows, events[..|events| - 1]), events[|events| - 1])
  }

  ghost predicate FirstDeclaration(events: seq<Event>, i: int) {
    && 0 <= i < |events| && events[i].DeclareEvent?
    && forall j :: 0 <= j < i ==> !events[j].Declares(events[i].declaration.declarationHash)
  }

  /** Some revocation of the hash came after some declaration of it. */
  ghost predicate RevokedWhileStored(events: seq<Event>, hash: string) {
    exists j, k :: 0 <= j < k < |events| && events[j].Declares(hash) && events[k].Revokes(hash)
  }

  /** The row that the history says event i left behind. */
  ghost predicate LeavesRow(events: seq<Event>, i: int, row: Row) {
    && FirstDeclaration(events, i)
    && row.declaration == events[i].declaration
    && (row.revoked <==> RevokedWhileStored(events, row.declaration.declarationHash))
  }

  lemma {:induction false} StoredIffDeclared(events: seq<Event>, hash: string)
    ensures HasRow(Replay([], events), hash) <==> exists j :: 0 <= j < |events| && events[j].Declares(hash)
  {
    if events != [] {
      var init, e := events[..|events| - 1], events[|events| - 1];
      StoredIffDeclared(init, hash);
      var rows := Replay([], init);
      HasRowAfter(rows, e, hash);
      if HasRow(rows, hash) {
        var j :| 0 <= j < |init| && init[j].Declares(hash);
        assert events[j].Declares(hash);
      }
      if j :| 0 <= j < |events| && events[j].Declares(hash) && j < |init| {
        assert init[j].Declares(hash);
      }
    }
  }

  lemma HasRowAfter(rows: seq<Row>, e: Event, hash: string)
    ensures HasRow(Apply(rows, e), hash) <==> HasRow(rows, hash) || e.Declares(hash)
  {
    var after := Apply(rows, e);
    if i :| 0 <= i < |rows| && rows[i].declaration.declarationHash == hash {
      assert after[i].declaration.declarationHash == hash;
    }
    if e.DeclareEvent? && after != rows {
      assert after[|rows|] == Row(e.declaration, false);
    }
  }

  lemma RevokedWhileStoredStep(events: seq<Event>, e: Event, hash: string)
    ensures RevokedWhileStored(events + [e], hash) <==>
            || RevokedWhileStored(events, hash)
            || (e.Revokes(hash) && exists j :: 0 <= j < |events| && events[j].Declares(hash))
  {
    var longer := events + [e];
    if j, k :| 0 <= j < k < |events| && events[j].Declares(hash) && events[k].Revokes(hash) {
      assert longer[j].Declares(hash) && longer[k].Revokes(hash);
    }
    if e.Revokes(hash) {
      if j :| 0 <= j < |events| && events[j].Declares(hash) {
        assert longer[j].Declares(hash) && longer[|events|].Revokes(hash);
      }
    }
    if j, k :| 0 <= j < k < |longer| && longer[j].Declares(hash) && longer[k].Revokes(hash) {
      assert events[j].Declares(hash);
      if k < |events| {
        assert events[k].Revokes(hash);
      }
    }
  }

  lemma FirstDeclarationStep(events: seq<Event>, e: Event, i: int)
    ensures FirstDeclaration(events + [e], i) <==>
            || FirstDeclaration(events, i)
            || (i == |events| && e.DeclareEvent?
                && forall j :: 0 <= j < |events| ==> !events[j].Declares(e.declaration.declarationHash))
  {
    var longer := events + [e];
    assert forall j :: 0 <= j < |events| ==> longer[j] == events[j];
  }

  /** The table holds exactly the first declaration of each hash, flagged exactly when it was revoked while stored. */
  lemma {:induction false} RowsExact(events: seq<Event>, row: Row)
    ensures row in Replay([], events) <==> exists i :: LeavesRow(events, i, row)
  {
    if events != [] {
      var init, e := events[..|events| - 1], events[|events| - 1];
      assert events == init + [e];
      var hash := row.declaration.declarationHash;
      RowsExact(init, row.(revoked := true));
      RowsExact(init, row.(revoked := false));
      StoredIffDeclared(init, hash);
      RevokedWhileStoredStep(init, e, hash);
      forall i
        ensures FirstDeclaration(events, i) <==>
                || FirstDeclaration(init, i)
                || (i == |init| && e.DeclareEvent?
                    && forall j :: 0 <= j < |init| ==> !init[j].Declares(e.declaration.declarationHash))
      {
        FirstDeclarationStep(init, e, i);
      }
      RowAfter(Replay([], init), e, row);
      if e.DeclareEvent? {
        DeclareStep(init, e, row);
      } else {
        RevokeStep(init, e, row);
      }
    }
  }

  lemma RowAfter(rows: seq<Row>, e: Event, row: Row)
    ensures row in Apply(rows, e) <==>
            match e
            case DeclareEvent(d) => row in rows || (!HasRow(rows, d.declarationHash) && row == Row(d, false))
            case RevokeEvent(r) =>
              if row.declaration.declarationHash != r.revokedDeclarationHash then row in rows
              else row.revoked && (row in rows || row.(revoked := false) in rows)
  {
    if e.RevokeEvent? {
      var after := Apply(rows, e);
      if row in after {
        var i :| 0 <= i < |after| && after[i] == row;
        assert rows[i] in rows;
        assert rows[i] == row || rows[i] == row.(revoked := false);
      }
      if row in rows {
        var i :| 0 <= i < |rows| && rows[i] == row;
        assert after[i] in after;
      }
      if row.revoked && row.(revoked := false) in rows {
        var i :| 0 <= i < |rows| && rows[i] == row.(revoked := false);
        assert after[i] in after;
      }
    }
  }

  lemma DeclareStep(init: seq<Event>, e: Event, row: Row)
    requires e.DeclareEvent?
    requires row in Replay([], init) <==> exists i :: LeavesRow(init, i, row)
    requires row in Replay([], init + [e]) <==>
             row in Replay([], init)
             || (!HasRow(Replay([], init), e.declaration.declarationHash) && row == Row(e.declaration, false))
    ensures row in Replay([], init + [e]) <==> exists i :: LeavesRow(init + [e], i, row)
  {
    var events := init + [e];
    var hash := row.declaration.declarationHash;
    RevokedWhileStoredStep(init, e, hash);
    StoredIffDeclared(init, e.declaration.declarationHash);
    if i :| LeavesRow(init, i, row) {
      FirstDeclarationStep(init, e, i);
      assert LeavesRow(events, i, row);
    }
    if !HasRow(Replay([], init), e.declaration.declarationHash) && row == Row(e.declaration, false) {
      FirstDeclarationStep(init, e, |init|);
      assert LeavesRow(events, |init|, row);
    }
    if i :| LeavesRow(events, i, row) {
      FirstDeclarationStep(init, e, i);
      if i < |init| {
        assert LeavesRow(init, i, row);
      }
    }
  }

  lemma RevokeStep(init: seq<Event>, e: Event, row: Row)
    requires e.RevokeEvent?
    requires forall b :: row.(revoked := b) in Replay([], init) <==> exists i :: LeavesRow(init, i, row.(revoked := b))
    requires row in Replay([], init + [e]) <==>
             if !e.Revokes(row.declaration.declarationHash) then row in Replay([], init)
             else row.revoked && (row in Replay([], init) || row.(revoked := false) in Replay([], init))
    ensures row in Replay([], init + [e]) <==> exists i :: LeavesRow(init + [e], i, row)
  {
    var events := init + [e];
    RevokedWhileStoredStep(init, e, row.declaration.declarationHash);
    assert row == row.(revoked := row.revoked);
    if b, i :| LeavesRow(init, i, row.(revoked := b)) && (e.Revokes(row.declaration.declarationHash) || b == row.revoked) {
      FirstDeclarationStep(init, e, i);
      assert init[i].Declares(row.declaration.declarationHash);
      assert row.revoked || !e.Revokes(row.declaration.declarationHash) ==> LeavesRow(events, i, row);
    }
    if i :| LeavesRow(events, i, row) {
      FirstDeclarationStep(init, e, i);
      var before := RevokedWhileStored(init, row.declaration.declarationHash);
      assert init[i].Declares(row.declaration.declarationHash);
      assert LeavesRow(init, i, row.(revoked := before));
    }
  }

  // ---- coverage, stated on the history alone ------------------------------------------------

  /** Event i declared intent that is in force: stored first under its hash, never revoked while stored, in scope. */
  ghost predicate InForce(events: seq<Event>, scopeRef: string, i: int) {
    && FirstDeclaration(events, i)
    && var d := events[i].declaration;
       && !RevokedWhileStored(events, d.declarationHash)
       && (d.scopeRef == "" || d.scopeRef == scopeRef)
  }

  lemma ActiveIffInForce(events: seq<Event>, scopeRef: string, d: IntentDeclaration)
    ensures d in Active(Replay([], events), scopeRef) <==>
            exists i :: InForce(events, scopeRef, i) && d == FromRow(Row(events[i].declaration, false))
  {
    var rows := Replay([], events);
    ActiveExact(rows, scopeRef);
    if d in Active(rows, scopeRef) {
      var k :| 0 <= k < |rows| && InScope(rows[k], scopeRef) && d == FromRow(rows[k]);
      assert rows[k] in rows;
      RowsExact(events, rows[k]);
      var i :| LeavesRow(events, i, rows[k]);
      assert InForce(events, scopeRef, i);
    }
    if i :| InForce(events, scopeRef, i) && d == FromRow(Row(events[i].declaration, false)) {
      var row := Row(events[i].declaration, false);
      assert LeavesRow(events, i, row);
      RowsExact(events, row);
      var k :| 0 <= k < |rows| && rows[k] == row;
    }
  }

  /**
   * After any history an op is COVERED exactly when it is derivable from the ops of some declaration in force.
   */
  lemma CoveredIffDerivableFromIntentInForce(events: seq<Event>, scopeRef: string, op: string,
                                             productionEdges: Option<Edges>, depth: Option<int>)
    ensures var edges := if productionEdges.Some? then productionEdges.value else map[];
            CoverageOf(op, Active(Replay([], events), scopeRef), productionEdges, depth).status == COVERED <==>
            exists i :: InForce(events, scopeRef, i)
                        && Derivable(Elements(events[i].declaration.declaredOps), edges, depth, op)
  {
    var edges := if productionEdges.Some? then productionEdges.value else map[];
    var active := Active(Replay([], events), scopeRef);
    CoverageExact(op, active, productionEdges, depth);
    if d :| d in active && Derivable(Elements(d.declaredOps), edges, depth, op) {
      ActiveIffInForce(events, scopeRef, d);
      var i :| InForce(events, scopeRef, i) && d == FromRow(Row(events[i].declaration, false));
      SameOpsAfterRead(events[i].declaration);
    }
    if i :| InForce(events, scopeRef, i) && Derivable(Elements(events[i].declaration.declaredOps), edges, depth, op) {
      var d := FromRow(Row(events[i].declaration, false));
      ActiveIffInForce(events, scopeRef, d);
      SameOpsAfterRead(events[i].declaration);
      assert d in active;
    }
  }

  lemma SameOpsAfterRead(d: IntentDeclaration)
    ensures Elements(FromRow(Row(d, false)).declaredOps) == Elements(d.declaredOps)
  {
    StringOrder();
    SortElements(StringLeq, d.declaredOps);
  }

  // ---- permanence ------------------------------------------------------------------------------

  ghost predicate ActiveHash(rows: seq<Row>, scopeRef: string, hash: string) {
    exists d :: d in Active(rows, scopeRef) && d.declarationHash == hash
  }

  /** Every stored row of the hash is revoked, and there is one, so no later declare can insert another. */
  ghost predicate Extinct(rows: seq<Row>, hash: string) {
    && HasRow(rows, hash)
    && forall i :: 0 <= i < |rows| && rows[i].declaration.declarationHash == hash ==> rows[i].revoked
  }

  lemma {:induction false} ExtinctForever(rows: seq<Row>, later: seq<Event>, hash: string)
    requires Extinct(rows, hash)
    ensures Extinct(Replay(rows, later), hash)
  {
    if later != [] {
      var init := later[..|later| - 1];
      ExtinctForever(rows, init, hash);
      HasRowAfter(Replay(rows, init), later[|later| - 1], hash);
    }
  }

  lemma ExtinctIsInactive(rows: seq<Row>, scopeRef: string, hash: string)
    requires Extinct(rows, hash)
    ensures !ActiveHash(rows, scopeRef, hash)
  {
    ActiveExact(rows, scopeRef);
  }

  lemma DeclaredAfreshIsActive(rows: seq<Row>, d: IntentDeclaration, scopeRef: string)
    requires !HasRow(rows, d.declarationHash)
    requires d.scopeRef == "" || d.scopeRef == scopeRef
    ensures ActiveHash(Replay(rows, [DeclareEvent(d)]), scopeRef, d.declarationHash)
  {
    var events := [DeclareEvent(d)];
    var after := Replay(rows, events);
    assert events[..|events| - 1] == [];
    assert Replay(rows, events[..|events| - 1]) == rows;
    assert after == rows + [Row(d, false)];
    ActiveExact(after, scopeRef);
    assert InScope(after[|rows|], scopeRef);
    assert FromRow(after[|rows|]) in Active(after, scopeRef);
  }

  /** No continuation of the history brings the hash back, in any scope. */
  ghost predicate NeverActiveAgain(rows: seq<Row>, hash: string) {
    forall later, scopeRef :: !ActiveHash(Replay(rows, later), scopeRef, hash)
  }

  /**
   * "Once revoked, never active again" holds exactly when the declaration is stored at the moment of the
   * revocation. A revocation that arrives first updates no row, and a later declare is active.
   */
  lemma RevocationIsPermanentIff(rows: seq<Row>, hash: string)
    ensures NeverActiveAgain(Revoked(rows, hash), hash) <==> HasRow(rows, hash)
  {
    var revoked := Revoked(rows, hash);
    if HasRow(rows, hash) {
      var i :| 0 <= i < |rows| && rows[i].declaration.declarationHash == hash;
      assert revoked[i].declaration.declarationHash == hash;
      forall later, scopeRef
        ensures !ActiveHash(Replay(revoked, later), scopeRef, hash)
      {
        ExtinctForever(revoked, later, hash);
        ExtinctIsInactive(Replay(revoked, later), scopeRef, hash);
      }
    } else {
      var d := IntentDeclaration(hash, ["op"], "session", "", "authority", "t");
      assert !HasRow(revoked, hash);
      DeclaredAfreshIsActive(revoked, d, "");
      assert ActiveHash(Replay(revoked, [DeclareEvent(d)]), "", d.declarationHash);
    }
  }

  /** Every declaration among the events carries the hash of its own body. */
  ghost predicate HashesVerify(events: seq<Event>, digest: BodyDigest) {
    forall e :: e in events && e.DeclareEvent? ==> VerifyHash(e.declaration, digest)
  }

  /** A created declaration revoked before it is first stored is in force once it is declared. */
  lemma EarlyRevocationIsLost(rows: seq<Row>, ops: seq<string>, authority: string, scopeType: string, scopeRef: string,
                              timestamp: string, digest: BodyDigest)
    requires !HasRow(rows, Create(ops, authority, scopeType, scopeRef, timestamp, digest).declarationHash)
    ensures var d := Create(ops, authority, scopeType, scopeRef, timestamp, digest);
            var later := [DeclareEvent(d)];
            && HashesVerify(later, digest)
            && ActiveHash(Replay(Revoked(rows, d.declarationHash), later), scopeRef, d.declarationHash)
  {
    var d := Create(ops, authority, scopeType, scopeRef, timestamp, digest);
    assert !HasRow(Revoked(rows, d.declarationHash), d.declarationHash);
    DeclaredAfreshIsActive(Revoked(rows, d.declarationHash), d, scopeRef);
  }

  /** No continuation of the history whose declarations carry their true hashes brings the hash back. */
  ghost predicate NeverHonestlyActiveAgain(rows: seq<Row>, hash: string, digest: BodyDigest) {
    forall later, scopeRef :: HashesVerify(later, digest) ==> !ActiveHash(Replay(rows, later), scopeRef, hash)
  }

  /** Honest continuations, whose declarations carry their true hashes, make no difference to the condition. */
  lemma HonestRevocationIsPermanentIff(rows: seq<Row>, ops: seq<string>, authority: string, scopeType: string,
                                       scopeRef: string, timestamp: string, digest: BodyDigest)
    ensures var hash := Create(ops, authority, scopeType, scopeRef, timestamp, digest).declarationHash;
            NeverHonestlyActiveAgain(Revoked(rows, hash), hash, digest) <==> HasRow(rows, hash)
  {
    var hash := Create(ops, authority, scopeType, scopeRef, timestamp, digest).declarationHash;
    if HasRow(rows, hash) {
      RevocationIsPermanentIff(rows, hash);
      assert NeverActiveAgain(Revoked(rows, hash), hash);
    } else {
      EarlyRevocationIsLost(rows, ops, authority, scopeType, scopeRef, timestamp, digest);
      var later := [DeclareEvent(Create(ops, authority, scopeType, scopeRef, timestamp, digest))];
      assert HashesVerify(later, digest) && ActiveHash(Replay(Revoked(rows, hash), later), scopeRef, hash);
    }
  }

  // ---- whose revocations deactivate ------------------------------------------------------------

  /** The unrevoked row under a hash. */
  function LiveRow(rows: seq<Row>, hash: string): Option<Row> {
    if rows == [] then None
    else if rows[0].declaration.declarationHash == hash && !rows[0].revoked then Some(rows[0])
    else LiveRow(rows[1..], hash)
  }

  lemma {:induction false} LiveRowExact(rows: seq<Row>, hash: string, row: Row)
    requires KeysUnique(rows)
    ensures LiveRow(rows, hash) == Some(row) <==>
            row in rows && row.declaration.declarationHash == hash && !row.revoked
  {
    if rows != [] {
      assert rows == [rows[0]] + rows[1..];
      assert KeysUnique(rows[1..]) by {
        assert forall i :: 0 <= i < |rows| - 1 ==> rows[1..][i] == rows[i + 1];
      }
      LiveRowExact(rows[1..], hash, row);
      if row in rows[1..] {
        var i :| 0 <= i < |rows[1..]| && rows[1..][i] == row;
        assert rows[i + 1] == row;
      }
    }
  }

  /** Every row the revocation changes was declared by the authority that revokes it. */
  ghost predicate ChangesOnlyOwnRows(rows: seq<Row>, revocation: IntentRevocation) {
    forall i :: 0 <= i < |rows| && Revoked(rows, revocation.revokedDeclarationHash)[i] != rows[i] ==>
                  rows[i].declaration.authority == revocation.authority
  }

  /**
   * The store never compares authorities. A revocation stays within its authority's own declarations exactly
   * when the live row under its hash, if there is one, was declared by that authority.
   */
  lemma RevocationIsByDeclarerIff(rows: seq<Row>, revocation: IntentRevocation)
    requires KeysUnique(rows)
    ensures var live := LiveRow(rows, revocation.revokedDeclarationHash);
            ChangesOnlyOwnRows(rows, revocation) <==>
            live.None? || live.value.declaration.authority == revocation.authority
  {
    var hash := revocation.revokedDeclarationHash;
    var live := LiveRow(rows, hash);
    if live.Some? {
      LiveRowExact(rows, hash, live.value);
      var i :| 0 <= i < |rows| && rows[i] == live.value;
      assert Revoked(rows, hash)[i] != rows[i];
    }
    forall i | 0 <= i < |rows| && Revoked(rows, hash)[i] != rows[i]
      ensures live == Some(rows[i])
    {
      assert rows[i] in rows;
      LiveRowExact(rows, hash, rows[i]);
    }
  }

  /** A revocation by somebody else deactivates a stored declaration. */
  lemma StrangersRevocationDeactivates()
    ensures var d := IntentDeclaration("h", ["op"], "session", "", "declarer", "t");
            var revocation := IntentRevocation("r", "h", "stranger", "t");
            var declared := [DeclareEvent(d)];
            && ActiveHash(Replay([], declared), "", "h")
            && !ActiveHash(Replay([], declared + [RevokeEvent(revocation)]), "", "h")
            && !ChangesOnlyOwnRows(Replay([], declared), revocation)
  {
    var d := IntentDeclaration("h", ["op"], "session", "", "declarer", "t");
    var revocation := IntentRevocation("r", "h", "stranger", "t");
    var declared := [DeclareEvent(d)];
    DeclaredAfreshIsActive([], d, "");
    ReplayOne([], DeclareEvent(d));
    ReplaySnoc([], declared, RevokeEvent(revocation));
    var rows := Replay([], declared);
    assert rows == [Row(d, false)];
    assert Revoked(rows, "h")[0] == Row(d, true);
    ExtinctIsInactive(Revoked(rows, "h"), "", "h");
  }

  lemma ReplaySnoc(rows: seq<Row>, events: seq<Event>, e: Event)
    ensures Replay(rows, events + [e]) == Apply(Replay(rows, events), e)
  {
    assert (events + [e])[..|events|] == events;
  }

  lemma ReplayOne(rows: seq<Row>, e: Event)
    ensures Replay(rows, [e]) == Apply(rows, e)
  {
    assert [e][..0] == [];
    assert Replay(rows, [e][..0]) == rows;
  }

  lemma {:induction false} ReplayedKeysUnique(events: seq<Event>)
    ensures KeysUnique(Replay([], events))
  {
    if events != [] {
      ReplayedKeysUnique(events[..|events| - 1]);
    }
  }

  /** Event k is the first revocation of the hash after event i declared it. */
  ghost predicate FirstRevocationAfter(events: seq<Event>, i: int, k: int) {
    && FirstDeclaration(events, i) && i < k < |events|
    && var hash := events[i].declaration.declarationHash;
       events[k].Revokes(hash) && forall m :: i < m < k ==> !events[m].Revokes(hash)
  }

  /** Just before event k the live row it revokes is the one event i declared. */
  lemma LiveRowIsFirstDeclared(events: seq<Event>, i: int, k: int)
    requires 0 <= k < |events| && events[k].RevokeEvent?
    ensures FirstRevocationAfter(events, i, k) <==>
            && 0 <= i < k && FirstDeclaration(events, i)
            && LiveRow(Replay([], events[..k]), events[k].revocation.revokedDeclarationHash) ==
               Some(Row(events[i].declaration, false))
  {
    var before, hash := events[..k], events[k].revocation.revokedDeclarationHash;
    ReplayedKeysUnique(before);
    if 0 <= i < k && FirstDeclaration(events, i) {
      var row := Row(events[i].declaration, false);
      LiveRowExact(Replay([], before), hash, row);
      RowsExact(before, row);
      assert FirstDeclaration(before, i);
      if FirstRevocationAfter(events, i, k) {
        assert LeavesRow(before, i, row) by {
          assert !RevokedWhileStored(before, hash);
        }
      }
      if LiveRow(Replay([], before), hash) == Some(row) {
        assert !RevokedWhileStored(before, hash);
        forall m | i < m < k
          ensures !events[m].Revokes(hash)
        {
          assert before[i].Declares(hash);
          assert before[m] == events[m];
        }
      }
    }
  }

  /** No revocation in the history changed somebody else's declaration. */
  ghost predicate OnlyDeclarersDeactivate(events: seq<Event>) {
    forall k :: 0 <= k < |events| && events[k].RevokeEvent? ==>
                  ChangesOnlyOwnRows(Replay([], events[..k]), events[k].revocation)
  }

  /**
   * On whole histories: declarations are deactivated by their declarers alone exactly when the first revocation
   * after each first declaration carries that declaration's authority. Later revocations change nothing.
   */
  lemma OnlyDeclarersDeactivateIff(events: seq<Event>)
    ensures OnlyDeclarersDeactivate(events) <==>
            forall i, k :: FirstRevocationAfter(events, i, k) ==>
                             events[i].declaration.authority == events[k].revocation.authority
  {
    forall i, k | FirstRevocationAfter(events, i, k)
      ensures ChangesOnlyOwnRows(Replay([], events[..k]), events[k].revocation) <==>
              events[i].declaration.authority == events[k].revocation.authority
    {
      LiveRowIsFirstDeclared(events, i, k);
      ReplayedKeysUnique(events[..k]);
      RevocationIsByDeclarerIff(Replay([], events[..k]), events[k].revocation);
    }
    forall k | 0 <= k < |events| && events[k].RevokeEvent?
      ensures (exists i :: FirstRevocationAfter(events, i, k))
              || ChangesOnlyOwnRows(Replay([], events[..k]), events[k].revocation)
    {
      DeactivatedRowWasDeclared(events, k);
    }
  }

  lemma DeactivatedRowWasDeclared(events: seq<Event>, k: int)
    requires 0 <= k < |events| && events[k].RevokeEvent?
    ensures (exists i :: FirstRevocationAfter(events, i, k))
            || ChangesOnlyOwnRows(Replay([], events[..k]), events[k].revocation)
  {
    var before, hash := events[..k], events[k].revocation.revokedDeclarationHash;
    ReplayedKeysUnique(before);
    RevocationIsByDeclarerIff(Replay([], before), events[k].revocation);
    var live := LiveRow(Replay([], before), hash);
    if live.Some? {
      LiveRowExact(Replay([], before), hash, live.value);
      RowsExact(before, live.value);
      var i :| LeavesRow(before, i, live.value);
      assert FirstDeclaration(events, i);
      LiveRowIsFirstDeclared(events, i, k);
    }
  }

  // ---- monotonicity of the two operations ---------------------------------------------------------

  function Intended(rows: seq<Row>, scopeRef: string, edges: Edges, depth: Option<int>): set<string> {
    ClosureOf(DeclaredOps(Active(rows, scopeRef)), edges, depth)
  }

  /** Declaring never shrinks what is intended; revoking never enlarges it. */
  lemma DeclareGrowsRevokeShrinks(rows: seq<Row>, d: IntentDeclaration, hash: string, scopeRef: string,
                                  edges: Edges, depth: Option<int>)
    ensures Intended(rows, scopeRef, edges, depth) <= Intended(Declared(rows, d), scopeRef, edges, depth)
    ensures Intended(Revoked(rows, hash), scopeRef, edges, depth) <= Intended(rows, scopeRef, edges, depth)
  {
    var more, fewer := Declared(rows, d), Revoked(rows, hash);
    ActiveExact(rows, scopeRef);
    ActiveExact(more, scopeRef);
    ActiveExact(fewer, scopeRef);
    forall x | x in Active(rows, scopeRef)
      ensures x in Active(more, scopeRef)
    {
      var i :| 0 <= i < |rows| && InScope(rows[i], scopeRef) && x == FromRow(rows[i]);
      assert more[i] == rows[i];
    }
    forall x | x in Active(fewer, scopeRef)
      ensures x in Active(rows, scopeRef)
    {
      var i :| 0 <= i < |fewer| && InScope(fewer[i], scopeRef) && x == FromRow(fewer[i]);
      assert rows[i] == fewer[i];
    }
    ClosureIsMonotone(DeclaredOps(Active(rows, scopeRef)), DeclaredOps(Active(more, scopeRef)),
                      edges, edges, depth, depth);
    ClosureIsMonotone(DeclaredOps(Active(fewer, scopeRef)), DeclaredOps(Active(rows, scopeRef)),
                      edges, edges, depth, depth);
  }
}
