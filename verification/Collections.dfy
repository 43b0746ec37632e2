/** Shared vocabulary: optional values and the set/sequence facts the other modules count with. */
module Collections {

  datatype Option<+T> = None | Some(value: T)

  function Elements<T>(s: seq<T>): set<T> {
    set x | x in s
  }

  ghost predicate NoDuplicates<T>(s: seq<T>) {
    forall i, j :: 0 <= i < j < |s| ==> s[i] != s[j]
  }

  /** Appending b to a is appending all of b but its last element, and then that one. */
  lemma AppendSnoc<T>(a: seq<T>, b: seq<T>)
    requires b != []
    ensures a + b == (a + b[..|b| - 1]) + [b[|b| - 1]]
    ensures (a + b)[..|a + b| - 1] == a + b[..|b| - 1]
  {
  }

  function Filter<T>(s: seq<T>, keep: T -> bool): seq<T> {
    if s == [] then []
    else Filter(s[..|s| - 1], keep) + if keep(s[|s| - 1]) then [s[|s| - 1]] else []
  }

  lemma {:induction false} FilterExact<T>(s: seq<T>, keep: T -> bool, x: T)
    ensures x in Filter(s, keep) <==> x in s && keep(x)
  {
    if s != [] {
      assert s == s[..|s| - 1] + [s[|s| - 1]];
      FilterExact(s[..|s| - 1], keep, x);
    }
  }

  /** The elements at the given positions, in the order of the sequence. */
  ghost function Picked<T>(s: seq<T>, positions: set<int>): seq<T> {
    if s == [] then []
    else
      var last := |s| - 1;
      Picked(s[..last], positions) + if last in positions then [s[last]] else []
  }

  /** The other elements, in the order of the sequence. */
  ghost function Dropped<T>(s: seq<T>, positions: set<int>): seq<T> {
    if s == [] then []
    else
      var last := |s| - 1;
      Dropped(s[..last], positions) + if last in positions then [] else [s[last]]
  }

  function Max(a: int, b: int): int {
    if a < b then b else a
  }

  lemma SubsetCardinality<T>(small: set<T>, large: set<T>)
    requires small <= large
    ensures |small| <= |large|
  {
    assert large == small + (large - small);
  }

  lemma SubsetOfEqualSizeIsEqual<T>(small: set<T>, large: set<T>)
    requires small <= large
    requires |small| >= |large|
    ensures small == large
  {
    assert large == small + (large - small);
  }

  /** A set has two different members exactly when its size exceeds one. */
  lemma TwoMembers<T>(s: set<T>)
    ensures |s| > 1 <==> exists x, y :: x in s && y in s && x != y
  {
    if |s| > 1 {
      var x :| x in s;
      assert s - {x} != {};
      var y :| y in s - {x};
    }
    if x, y :| x in s && y in s && x != y {
      SubsetCardinality({x, y}, s);
      assert |{x, y}| == 2;
    }
  }

  lemma ElementsOfAppend<T>(s: seq<T>, x: T)
    ensures Elements(s + [x]) == Elements(s) + {x}
  {
  }

  /** Counting the list never undercounts the set; it is exact when nothing repeats. */
  lemma {:induction false} ElementsCardinality<T>(s: seq<T>)
    ensures |Elements(s)| <= |s|
    ensures |Elements(s)| == |s| <==> NoDuplicates(s)
  {
    if s != [] {
      var init, last := s[..|s| - 1], s[|s| - 1];
      ElementsCardinality(init);
      assert s == init + [last];
      ElementsOfAppend(init, last);
      assert last in Elements(init) <==> exists i :: 0 <= i < |init| && init[i] == last;
    }
  }

  lemma {:induction false} NoDuplicatesMultiset<T>(a: seq<T>, b: seq<T>)
    requires NoDuplicates(a) && NoDuplicates(b)
    requires Elements(a) == Elements(b)
    ensures multiset(a) == multiset(b)
  {
    forall x
      ensures multiset(a)[x] == multiset(b)[x]
    {
      NoDuplicatesCount(a, x);
      NoDuplicatesCount(b, x);
      assert x in Elements(a) <==> x in Elements(b);
    }
  }

  lemma {:induction false} NoDuplicatesCount<T>(s: seq<T>, x: T)
    requires NoDuplicates(s)
    ensures multiset(s)[x] == if x in s then 1 else 0
  {
    if s != [] {
      assert s == s[..|s| - 1] + [s[|s| - 1]];
      NoDuplicatesCount(s[..|s| - 1], x);
    }
  }
}
