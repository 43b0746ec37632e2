/** Intent coverage: the closure of declared ops, and the declaration behind a verdict (ugk/will.py). */
module Will {
  import opened Collections
  import opened Ordering
  import opened Intent

  type Edges = map<string, set<string>>

  // ---- reference semantics: paths ---------------------------------------------------------

  ghost predicate IsPath(edges: Edges, p: seq<string>) {
    && p != []
    && forall i :: 0 <= i < |p| - 1 ==> p[i] in edges && p[i + 1] in edges[p[i]]
  }

  /** p leads from the seed to op. */
  ghost predicate Leads(seed: set<string>, edges: Edges, p: seq<string>, op: string) {
    IsPath(edges, p) && p[0] in seed && p[|p| - 1] == op
  }

  /** op is reachable from the seed: over any number of edges, or over at most `depth` of them. */
  ghost predicate Derivable(seed: set<string>, edges: Edges, depth: Option<int>, op: string) {
    exists p :: Leads(seed, edges, p, op) && (depth.Some? ==> |p| - 1 <= Max(0, depth.value))
  }

  // ---- rounds ---------------------------------------------------------------------------------

  function Targets(edges: Edges): set<string> {
    set src, x | src in edges.Keys && x in edges[src] :: x
  }

  /** What one pass over the edges can add; every test reads the set as it was before the pass. */
  function Successors(covered: set<string>, edges: Edges): set<string> {
    set src, x | src in edges.Keys && src in covered && x in edges[src] :: x
  }

  function Rounds(seed: set<string>, edges: Edges, n: nat): set<string> {
    if n == 0 then seed
    else var covered := Rounds(seed, edges, n - 1); covered + Successors(covered, edges)
  }

  predicate Closed(covered: set<string>, edges: Edges) {
    Successors(covered, edges) <= covered
  }

  /** The closure: `depth` rounds, or as many rounds as there are edge targets when unbounded. */
  function ClosureOf(seed: set<string>, edges: Edges, depth: Option<int>): set<string> {
    Rounds(seed, edges, if depth.None? then |Targets(edges)| else Max(0, depth.value))
  }

  lemma {:induction false} RoundsGrow(seed: set<string>, edges: Edges, m: nat, n: nat)
    requires m <= n
    ensures seed <= Rounds(seed, edges, m) <= Rounds(seed, edges, n) <= seed + Targets(edges)
    decreases n
  {
    if m < n {
      RoundsGrow(seed, edges, m, n - 1);
    } else if n > 0 {
      RoundsGrow(seed, edges, n - 1, n - 1);
    }
  }

  lemma {:induction false} ClosedStays(seed: set<string>, edges: Edges, m: nat, n: nat)
    requires m <= n && Closed(Rounds(seed, edges, m), edges)
    ensures Rounds(seed, edges, n) == Rounds(seed, edges, m)
    decreases n
  {
    if m < n {
      ClosedStays(seed, edges, m, n - 1);
    }
  }

  /** Every round that is not the last one adds an op. */
  lemma {:induction false} ClosedOrGrown(seed: set<string>, edges: Edges, n: nat)
    ensures Closed(Rounds(seed, edges, n), edges) || |Rounds(seed, edges, n + 1)| >= |seed| + n + 1
  {
    var here, next := Rounds(seed, edges, n), Rounds(seed, edges, n + 1);
    if !Closed(here, edges) {
      assert |here| < |next| by {
        SubsetCardinality(here, next);
        if |here| >= |next| {
          SubsetOfEqualSizeIsEqual(here, next);
        }
      }
      if n > 0 {
        ClosedOrGrown(seed, edges, n - 1);
      }
    }
  }

  /** After as many rounds as ops can be added, nothing more is added. */
  lemma ClosedAfter(seed: set<string>, edges: Edges, bound: set<string>, n: nat)
    requires Rounds(seed, edges, n + 1) <= seed + bound
    requires n >= |bound - seed|
    ensures Closed(Rounds(seed, edges, n), edges)
  {
    ClosedOrGrown(seed, edges, n);
    var next := Rounds(seed, edges, n + 1);
    RoundsGrow(seed, edges, 0, n + 1);
    SizeBetween(seed, next, bound);
  }

  lemma SizeBetween(seed: set<string>, next: set<string>, bound: set<string>)
    requires seed <= next <= seed + bound
    ensures |next| <= |seed| + |bound - seed|
  {
    SubsetCardinality(next, seed + (bound - seed));
    assert next <= seed + (bound - seed);
  }

  lemma {:induction false} RoundsHavePaths(seed: set<string>, edges: Edges, n: nat, op: string) returns (p: seq<string>)
    requires op in Rounds(seed, edges, n)
    ensures Leads(seed, edges, p, op) && |p| - 1 <= n
  {
    if n == 0 || op in Rounds(seed, edges, n - 1) {
      if n == 0 { p := [op]; } else { p := RoundsHavePaths(seed, edges, n - 1, op); }
    } else {
      var src :| src in edges.Keys && src in Rounds(seed, edges, n - 1) && op in edges[src];
      var q := RoundsHavePaths(seed, edges, n - 1, src);
      p := q + [op];
    }
  }

  lemma {:induction false} PathsAreInRounds(seed: set<string>, edges: Edges, p: seq<string>, op: string)
    requires Leads(seed, edges, p, op)
    ensures op in Rounds(seed, edges, |p| - 1)
  {
    if |p| > 1 {
      var q := p[..|p| - 1];
      PathsAreInRounds(seed, edges, q, q[|q| - 1]);
      assert p[|p| - 2] in edges && p[|p| - 2 + 1] in edges[p[|p| - 2]];
    }
  }

  /** Bounded or not, the closure is exactly what paths within the bound reach. */
  lemma ClosureIsReachability(seed: set<string>, edges: Edges, depth: Option<int>, op: string)
    ensures op in ClosureOf(seed, edges, depth) <==> Derivable(seed, edges, depth, op)
  {
    var n := if depth.None? then |Targets(edges)| else Max(0, depth.value);
    if op in Rounds(seed, edges, n) {
      var p := RoundsHavePaths(seed, edges, n, op);
    }
    if Derivable(seed, edges, depth, op) {
      var p :| Leads(seed, edges, p, op) && (depth.Some? ==> |p| - 1 <= Max(0, depth.value));
      PathsAreInRounds(seed, edges, p, op);
      if depth.None? {
        RoundsWithinFull(seed, edges, |p| - 1);
      } else {
        RoundsGrow(seed, edges, |p| - 1, n);
      }
    }
  }

  lemma UnboundedIsClosed(seed: set<string>, edges: Edges)
    ensures Closed(ClosureOf(seed, edges, None), edges)
  {
    var n := |Targets(edges)|;
    RoundsGrow(seed, edges, n + 1, n + 1);
    SubsetCardinality(Targets(edges) - seed, Targets(edges));
    ClosedAfter(seed, edges, Targets(edges), n);
  }

  /** The unbounded closure is the least set that contains the seed and is closed under the edges. */
  lemma UnboundedIsLeastFixpoint(seed: set<string>, edges: Edges, other: set<string>)
    requires seed <= other && Closed(other, edges)
    ensures var full := ClosureOf(seed, edges, None);
            seed <= full && Closed(full, edges) && full <= other
  {
    UnboundedIsClosed(seed, edges);
    RoundsGrow(seed, edges, 0, |Targets(edges)|);
    RoundsStayInside(seed, edges, |Targets(edges)|, other);
  }

  lemma {:induction false} RoundsStayInside(seed: set<string>, edges: Edges, n: nat, other: set<string>)
    requires seed <= other && Closed(other, edges)
    ensures Rounds(seed, edges, n) <= other
  {
    if n > 0 {
      RoundsStayInside(seed, edges, n - 1, other);
      assert Successors(Rounds(seed, edges, n - 1), edges) <= Successors(other, edges);
    }
  }

  lemma RoundsWithinFull(seed: set<string>, edges: Edges, n: nat)
    ensures Rounds(seed, edges, n) <= ClosureOf(seed, edges, None)
    ensures Closed(Rounds(seed, edges, n), edges) ==> Rounds(seed, edges, n) == ClosureOf(seed, edges, None)
  {
    var most := |Targets(edges)|;
    UnboundedIsClosed(seed, edges);
    if n <= most {
      RoundsGrow(seed, edges, n, most);
      if Closed(Rounds(seed, edges, n), edges) {
        ClosedStays(seed, edges, n, most);
      }
    } else {
      ClosedStays(seed, edges, most, n);
    }
  }

  /** A bound no smaller than the number of ops the full closure adds is no bound at all. */
  lemma EnoughDepthIsFullClosure(seed: set<string>, edges: Edges, depth: int)
    requires depth >= |ClosureOf(seed, edges, None) - seed|
    ensures ClosureOf(seed, edges, Some(depth)) == ClosureOf(seed, edges, None)
  {
    RoundsWithinFull(seed, edges, depth + 1);
    ClosedAfter(seed, edges, ClosureOf(seed, edges, None), depth);
    RoundsWithinFull(seed, edges, depth);
  }

  ghost predicate EdgesWithin(small: Edges, large: Edges) {
    forall src :: src in small ==> src in large && small[src] <= large[src]
  }

  predicate DepthWithin(small: Option<int>, large: Option<int>) {
    large.None? || (small.Some? && small.value <= large.value)
  }

  /** More seed, more edges and more depth never cover less. */
  lemma ClosureIsMonotone(seed1: set<string>, seed2: set<string>, edges1: Edges, edges2: Edges,
                          depth1: Option<int>, depth2: Option<int>)
    requires seed1 <= seed2 && EdgesWithin(edges1, edges2) && DepthWithin(depth1, depth2)
    ensures ClosureOf(seed1, edges1, depth1) <= ClosureOf(seed2, edges2, depth2)
  {
    forall op | op in ClosureOf(seed1, edges1, depth1)
      ensures op in ClosureOf(seed2, edges2, depth2)
    {
      ClosureIsReachability(seed1, edges1, depth1, op);
      var p :| Leads(seed1, edges1, p, op) && (depth1.Some? ==> |p| - 1 <= Max(0, depth1.value));
      assert Leads(seed2, edges2, p, op);
      ClosureIsReachability(seed2, edges2, depth2, op);
    }
  }

  lemma StoppedAtClosure(seed: set<string>, edges: Edges, depth: Option<int>, steps: nat)
    requires Closed(Rounds(seed, edges, steps), edges) || (depth.Some? && steps == Max(0, depth.value))
    requires depth.Some? ==> steps <= Max(0, depth.value)
    ensures Rounds(seed, edges, steps) == ClosureOf(seed, edges, depth)
  {
    if depth.None? {
      RoundsWithinFull(seed, edges, steps);
    } else if Closed(Rounds(seed, edges, steps), edges) {
      ClosedStays(seed, edges, steps, Max(0, depth.value));
    }
  }

  /** One pass over the edges, in whatever order the dictionary yields them. */
  method Pass(covered: set<string>, edges: Edges) returns (reached: set<string>)
    ensures reached == Successors(covered, edges)
  {
    reached := {};
    var pending := edges.Keys;
    while pending != {}
      invariant pending <= edges.Keys
      invariant reached == (set src, x | src in edges.Keys - pending && src in covered && x in edges[src] :: x)
    {
      var src :| src in pending;
      pending := pending - {src};
      if src in covered {
        reached := reached + edges[src];
      }
    }
  }

  lemma RoundStep(seed: set<string>, edges: Edges, n: nat)
    ensures var covered := Rounds(seed, edges, n);
            var added := Successors(covered, edges) - covered;
            && Rounds(seed, edges, n + 1) == covered + added
            && (added == {} <==> Closed(covered, edges))
            && covered + added <= seed + Targets(edges)
  {
    RoundsGrow(seed, edges, n + 1, n + 1);
  }

  method Closure(seed: set<string>, edges: Edges, depth: Option<int>) returns (covered: set<string>)
    ensures covered == ClosureOf(seed, edges, depth)
    ensures forall op :: op in covered <==> Derivable(seed, edges, depth, op)
  {
    covered := seed;
    var steps := 0;
    while depth.None? || steps < depth.value
      invariant 0 <= steps && (steps == 0 || depth.None? || steps <= depth.value)
      invariant covered == Rounds(seed, edges, steps)
      decreases (seed + Targets(edges)) - covered
    {
      var added := Pass(covered, edges);
      added := added - covered;
      RoundStep(seed, edges, steps);
      if added == {} {
        break;
      }
      covered := covered + added;
      steps := steps + 1;
    }
    StoppedAtClosure(seed, edges, depth, steps);
    forall op
      ensures op in covered <==> Derivable(seed, edges, depth, op)
    {
      ClosureIsReachability(seed, edges, depth, op);
    }
  }

  // ---- coverage ------------------------------------------------------------------------------

  datatype Status = COVERED | OUTSIDE

  datatype RefusalCode = WL_001 | WL_005

  datatype CoverageOutcome = CoverageOutcome(
    status: Status,
    refusalCode: Option<RefusalCode>,
    intentRef: Option<string>)

  function DeclaredOps(declarations: seq<IntentDeclaration>): set<string> {
    set d, op | d in declarations && op in d.declaredOps :: op
  }

  predicate FewestOps(a: IntentDeclaration, b: IntentDeclaration) {
    |a.declaredOps| <= |b.declaredOps|
  }

  function Declares(op: string): IntentDeclaration -> bool {
    (d: IntentDeclaration) => op in d.declaredOps
  }

  function Reaches(op: string, edges: Edges, depth: Option<int>): IntentDeclaration -> bool {
    (d: IntentDeclaration) => op in ClosureOf(Elements(d.declaredOps), edges, depth)
  }

  /** The declaration the search stops at: the first direct declarer by op count, else the first closure-coverer. */
  function CoverChoice(op: string, declarations: seq<IntentDeclaration>, edges: Edges, depth: Option<int>):
    Option<IntentDeclaration>
  {
    var sorted := Sort(FewestOps, declarations);
    var direct := FirstMatch(sorted, Declares(op));
    if direct.Some? then direct else FirstMatch(sorted, Reaches(op, edges, depth))
  }

  method FindCover(op: string, declarations: seq<IntentDeclaration>, edges: Edges, depth: Option<int>)
    returns (hash: string)
    ensures var choice := CoverChoice(op, declarations, edges, depth);
            hash == if choice.Some? then choice.value.declarationHash else ""
    ensures (exists d :: d in declarations && op in d.declaredOps) ==>
              exists i ::
                && 0 <= i < |declarations| && hash == declarations[i].declarationHash
                && op in declarations[i].declaredOps
                && forall j :: 0 <= j < |declarations| && op in declarations[j].declaredOps ==>
                                 || |declarations[i].declaredOps| < |declarations[j].declaredOps|
                                 || (|declarations[i].declaredOps| == |declarations[j].declaredOps| && i <= j)
    ensures && (forall d :: d in declarations ==> op !in d.declaredOps)
            && (exists d :: d in declarations && Derivable(Elements(d.declaredOps), edges, depth, op)) ==>
              exists i ::
                && 0 <= i < |declarations| && hash == declarations[i].declarationHash
                && Derivable(Elements(declarations[i].declaredOps), edges, depth, op)
                && forall j :: 0 <= j < |declarations|
                               && Derivable(Elements(declarations[j].declaredOps), edges, depth, op) ==>
                                 || |declarations[i].declaredOps| < |declarations[j].declaredOps|
                                 || (|declarations[i].declaredOps| == |declarations[j].declaredOps| && i <= j)
    ensures && (forall d :: d in declarations ==> op !in d.declaredOps)
            && (forall d :: d in declarations ==> !Derivable(Elements(d.declaredOps), edges, depth, op)) ==>
              hash == ""
  {
    ChoiceIsSmallest(op, declarations, edges, depth);
    var sorted := Sort(FewestOps, declarations);
    for i := 0 to |sorted|
      invariant FirstMatch(sorted, Declares(op)) == FirstMatch(sorted[i..], Declares(op))
    {
      assert sorted[i..][1..] == sorted[i + 1..];
      if op in sorted[i].declaredOps {
        return sorted[i].declarationHash;
      }
    }
    for i := 0 to |sorted|
      invariant FirstMatch(sorted, Declares(op)).None?
      invariant FirstMatch(sorted, Reaches(op, edges, depth)) == FirstMatch(sorted[i..], Reaches(op, edges, depth))
    {
      assert sorted[i..][1..] == sorted[i + 1..];
      var closure := Closure(Elements(sorted[i].declaredOps), edges, depth);
      if op in closure {
        return sorted[i].declarationHash;
      }
    }
    hash := "";
  }

  /** The choice, read off the declarations: fewest declared ops, earliest on ties; direct declarers first. */
  lemma ChoiceIsSmallest(op: string, declarations: seq<IntentDeclaration>, edges: Edges, depth: Option<int>)
    ensures var choice := CoverChoice(op, declarations, edges, depth);
            if exists d :: d in declarations && op in d.declaredOps then
              choice.Some? && exists i ::
                && 0 <= i < |declarations| && declarations[i] == choice.value && op in declarations[i].declaredOps
                && forall j :: 0 <= j < |declarations| && op in declarations[j].declaredOps ==>
                                 || |declarations[i].declaredOps| < |declarations[j].declaredOps|
                                 || (|declarations[i].declaredOps| == |declarations[j].declaredOps| && i <= j)
            else if exists d :: d in declarations && Derivable(Elements(d.declaredOps), edges, depth, op) then
              choice.Some? && exists i ::
                && 0 <= i < |declarations| && declarations[i] == choice.value
                && Derivable(Elements(declarations[i].declaredOps), edges, depth, op)
                && forall j :: 0 <= j < |declarations|
                               && Derivable(Elements(declarations[j].declaredOps), edges, depth, op) ==>
                                 || |declarations[i].declaredOps| < |declarations[j].declaredOps|
                                 || (|declarations[i].declaredOps| == |declarations[j].declaredOps| && i <= j)
            else choice.None?
  {
    var direct := FirstMatch(Sort(FewestOps, declarations), Declares(op));
    var i := SmallestMatch(declarations, Declares(op));
    if direct.Some? {
      assert declarations[i] in declarations && op in declarations[i].declaredOps;
    } else {
      assert forall d :: d in declarations ==> !Declares(op)(d);
      assert !exists d :: d in declarations && op in d.declaredOps;
      SmallestReaching(op, declarations, edges, depth);
    }
  }

  lemma SmallestReaching(op: string, declarations: seq<IntentDeclaration>, edges: Edges, depth: Option<int>)
    ensures var choice := FirstMatch(Sort(FewestOps, declarations), Reaches(op, edges, depth));
            if exists d :: d in declarations && Derivable(Elements(d.declaredOps), edges, depth, op) then
              choice.Some? && exists i ::
                && 0 <= i < |declarations| && declarations[i] == choice.value
                && Derivable(Elements(declarations[i].declaredOps), edges, depth, op)
                && forall j :: 0 <= j < |declarations|
                               && Derivable(Elements(declarations[j].declaredOps), edges, depth, op) ==>
                                 || |declarations[i].declaredOps| < |declarations[j].declaredOps|
                                 || (|declarations[i].declaredOps| == |declarations[j].declaredOps| && i <= j)
            else choice.None?
  {
    var choice := FirstMatch(Sort(FewestOps, declarations), Reaches(op, edges, depth));
    forall d: IntentDeclaration
      ensures Reaches(op, edges, depth)(d) <==> Derivable(Elements(d.declaredOps), edges, depth, op)
    {
      ClosureIsReachability(Elements(d.declaredOps), edges, depth, op);
    }
    var i := SmallestMatch(declarations, Reaches(op, edges, depth));
    if choice.Some? {
      assert declarations[i] in declarations && Reaches(op, edges, depth)(declarations[i]);
    }
  }

  lemma SmallestMatch(declarations: seq<IntentDeclaration>, p: IntentDeclaration -> bool) returns (i: int)
    ensures var choice := FirstMatch(Sort(FewestOps, declarations), p);
            if choice.None? then forall d :: d in declarations ==> !p(d)
            else
              && 0 <= i < |declarations| && declarations[i] == choice.value && p(declarations[i])
              && forall j :: 0 <= j < |declarations| && p(declarations[j]) ==>
                               || |declarations[i].declaredOps| < |declarations[j].declaredOps|
                               || (|declarations[i].declaredOps| == |declarations[j].declaredOps| && i <= j)
  {
    assert TotalPreorder(FewestOps);
    i := FirstMatchOfSort(FewestOps, declarations, p);
    if FirstMatch(Sort(FewestOps, declarations), p).Some? {
      LeastIsSmallest(declarations, p, i);
    }
  }

  lemma LeastIsSmallest(declarations: seq<IntentDeclaration>, p: IntentDeclaration -> bool, i: int)
    requires LeastMatch(FewestOps, declarations, p, i)
    ensures forall j :: 0 <= j < |declarations| && p(declarations[j]) ==>
                          || |declarations[i].declaredOps| < |declarations[j].declaredOps|
                          || (|declarations[i].declaredOps| == |declarations[j].declaredOps| && i <= j)
  {
    forall j | 0 <= j < |declarations| && p(declarations[j])
      ensures || |declarations[i].declaredOps| < |declarations[j].declaredOps|
              || (|declarations[i].declaredOps| == |declarations[j].declaredOps| && i <= j)
    {
      assert FewestOps(declarations[i], declarations[j]);
      if j < i {
        assert !FewestOps(declarations[j], declarations[i]);
      }
    }
  }

  function CoverageOf(op: string, active: seq<IntentDeclaration>, productionEdges: Option<Edges>, depth: Option<int>):
    CoverageOutcome
  {
    var edges := if productionEdges.Some? then productionEdges.value else map[];
    var seed := DeclaredOps(active);
    if seed == {} then CoverageOutcome(OUTSIDE, Some(WL_005), None)
    else if op !in ClosureOf(seed, edges, depth) then CoverageOutcome(OUTSIDE, Some(WL_001), None)
    else
      var choice := CoverChoice(op, active, edges, depth);
      CoverageOutcome(COVERED, None, Some(if choice.Some? then choice.value.declarationHash else ""))
  }

  method Covers(op: string, active: seq<IntentDeclaration>, productionEdges: Option<Edges>, depth: Option<int>)
    returns (outcome: CoverageOutcome)
    ensures outcome == CoverageOf(op, active, productionEdges, depth)
    ensures var edges := if productionEdges.Some? then productionEdges.value else map[];
            if forall d :: d in active ==> d.declaredOps == [] then
              outcome == CoverageOutcome(OUTSIDE, Some(WL_005), None)
            else if forall d :: d in active ==> !Derivable(Elements(d.declaredOps), edges, depth, op) then
              outcome == CoverageOutcome(OUTSIDE, Some(WL_001), None)
            else if exists d :: d in active && op in d.declaredOps then
              exists i ::
                && 0 <= i < |active| && op in active[i].declaredOps
                && outcome == CoverageOutcome(COVERED, None, Some(active[i].declarationHash))
                && forall j :: 0 <= j < |active| && op in active[j].declaredOps ==>
                                 || |active[i].declaredOps| < |active[j].declaredOps|
                                 || (|active[i].declaredOps| == |active[j].declaredOps| && i <= j)
            else
              exists i ::
                && 0 <= i < |active| && Derivable(Elements(active[i].declaredOps), edges, depth, op)
                && outcome == CoverageOutcome(COVERED, None, Some(active[i].declarationHash))
                && forall j :: 0 <= j < |active| && Derivable(Elements(active[j].declaredOps), edges, depth, op) ==>
                                 || |active[i].declaredOps| < |active[j].declaredOps|
                                 || (|active[i].declaredOps| == |active[j].declaredOps| && i <= j)
  {
    var edges := if productionEdges.Some? then productionEdges.value else map[];
    var seed: set<string> := {};
    for i := 0 to |active|
      invariant seed == DeclaredOps(active[..i])
    {
      assert active[..i + 1] == active[..i] + [active[i]];
      DeclaredOpsAppend(active[..i], active[i]);
      seed := seed + Elements(active[i].declaredOps);
    }
    assert active[..|active|] == active;
    NoSeedIffNoOps(active);
    CoveringIsDeriving(op, active, edges, depth);
    if seed == {} {
      return CoverageOutcome(OUTSIDE, Some(WL_005), None);
    }
    var covered := Closure(seed, edges, depth);
    if op !in covered {
      return CoverageOutcome(OUTSIDE, Some(WL_001), None);
    }
    var coverHash := FindCover(op, active, edges, depth);
    outcome := CoverageOutcome(COVERED, None, Some(coverHash));
  }

  lemma DeclaredOpsAppend(declarations: seq<IntentDeclaration>, d: IntentDeclaration)
    ensures DeclaredOps(declarations + [d]) == DeclaredOps(declarations) + Elements(d.declaredOps)
  {
    var longer := declarations + [d];
    assert forall x :: x in longer <==> x in declarations || x == d;
    assert d in longer;
  }

  // ---- the search always explains the verdict ----------------------------------------------------

  /** The closure of a union of seeds is the union of the closures, at every depth. */
  lemma ClosureOfUnion(declarations: seq<IntentDeclaration>, edges: Edges, depth: Option<int>, op: string)
    ensures op in ClosureOf(DeclaredOps(declarations), edges, depth) <==>
            exists d :: d in declarations && op in ClosureOf(Elements(d.declaredOps), edges, depth)
  {
    var seed := DeclaredOps(declarations);
    if op in ClosureOf(seed, edges, depth) {
      ClosureIsReachability(seed, edges, depth, op);
      var p :| Leads(seed, edges, p, op) && (depth.Some? ==> |p| - 1 <= Max(0, depth.value));
      var d :| d in declarations && p[0] in d.declaredOps;
      assert Leads(Elements(d.declaredOps), edges, p, op);
      ClosureIsReachability(Elements(d.declaredOps), edges, depth, op);
    }
    if d :| d in declarations && op in ClosureOf(Elements(d.declaredOps), edges, depth) {
      ClosureIsMonotone(Elements(d.declaredOps), seed, edges, edges, depth, depth);
    }
  }

  /**
   * Whenever the union of all seeds covers op, the search stops at a declaration that covers op on its own:
   * the least by number of declared ops among those that declare op, earliest on ties; if none declares it,
   * the least among those whose own closure reaches it.
   */
  lemma CoverSearchIsComplete(op: string, declarations: seq<IntentDeclaration>, edges: Edges, depth: Option<int>)
    requires op in ClosureOf(DeclaredOps(declarations), edges, depth)
    ensures var choice := CoverChoice(op, declarations, edges, depth);
            && choice.Some?
            && op in ClosureOf(Elements(choice.value.declaredOps), edges, depth)
            && exists i :: 0 <= i < |declarations| && declarations[i] == choice.value
                           && if exists d :: d in declarations && op in d.declaredOps
                              then LeastMatch(FewestOps, declarations, Declares(op), i)
                              else LeastMatch(FewestOps, declarations, Reaches(op, edges, depth), i)
  {
    assert TotalPreorder(FewestOps);
    ClosureOfUnion(declarations, edges, depth, op);
    var d :| d in declarations && op in ClosureOf(Elements(d.declaredOps), edges, depth);
    assert Reaches(op, edges, depth)(d);
    var i := FirstMatchOfSort(FewestOps, declarations, Declares(op));
    var j := FirstMatchOfSort(FewestOps, declarations, Reaches(op, edges, depth));
    var direct := FirstMatch(Sort(FewestOps, declarations), Declares(op));
    assert direct.None? <==> forall x :: x in declarations ==> !Declares(op)(x);
    if direct.Some? {
      RoundsGrow(Elements(direct.value.declaredOps), edges, 0,
                 if depth.None? then |Targets(edges)| else Max(0, depth.value));
    }
  }

  /** The verdict in full: which of the three outcomes, and whose hash is reported. */
  lemma CoverageExact(op: string, active: seq<IntentDeclaration>, productionEdges: Option<Edges>, depth: Option<int>)
    ensures var edges := if productionEdges.Some? then productionEdges.value else map[];
            var outcome := CoverageOf(op, active, productionEdges, depth);
            && (outcome.status == COVERED <==>
                exists d :: d in active && Derivable(Elements(d.declaredOps), edges, depth, op))
            && (outcome.refusalCode == Some(WL_005) <==> forall d :: d in active ==> d.declaredOps == [])
            && (outcome.status == COVERED ==>
                exists d :: d in active && Derivable(Elements(d.declaredOps), edges, depth, op)
                            && outcome.intentRef == Some(d.declarationHash))
            && (outcome.status == COVERED ==> outcome.refusalCode.None?)
            && (outcome.status == OUTSIDE ==> outcome.refusalCode.Some? && outcome.intentRef.None?)
  {
    var edges := if productionEdges.Some? then productionEdges.value else map[];
    CoveringIsDeriving(op, active, edges, depth);
    NoSeedIffNoOps(active);
    if DeclaredOps(active) == {} {
      NothingFromNothing(edges, depth, op);
    } else if op in ClosureOf(DeclaredOps(active), edges, depth) {
      CoverSearchIsComplete(op, active, edges, depth);
      ClosureIsReachability(Elements(CoverChoice(op, active, edges, depth).value.declaredOps), edges, depth, op);
    }
  }

  lemma CoveringIsDeriving(op: string, declarations: seq<IntentDeclaration>, edges: Edges, depth: Option<int>)
    ensures op in ClosureOf(DeclaredOps(declarations), edges, depth) <==>
            exists d :: d in declarations && Derivable(Elements(d.declaredOps), edges, depth, op)
  {
    ClosureOfUnion(declarations, edges, depth, op);
    forall d: IntentDeclaration
      ensures op in ClosureOf(Elements(d.declaredOps), edges, depth) <==>
              Derivable(Elements(d.declaredOps), edges, depth, op)
    {
      ClosureIsReachability(Elements(d.declaredOps), edges, depth, op);
    }
  }

  lemma NoSeedIffNoOps(declarations: seq<IntentDeclaration>)
    ensures DeclaredOps(declarations) == {} <==> forall d :: d in declarations ==> d.declaredOps == []
  {
    forall d | d in declarations && d.declaredOps != []
      ensures DeclaredOps(declarations) != {}
    {
      assert d.declaredOps[0] in d.declaredOps;
      assert d.declaredOps[0] in DeclaredOps(declarations);
    }
  }

  lemma NothingFromNothing(edges: Edges, depth: Option<int>, op: string)
    ensures op !in ClosureOf({}, edges, depth)
  {
    ClosureIsReachability({}, edges, depth, op);
  }
}
