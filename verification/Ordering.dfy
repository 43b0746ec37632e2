/** Python's `sorted` as a stable insertion sort, with `sorted(set(...))` on top of it. */
module Ordering {
  import opened Collections

  ghost predicate TotalPreorder<T(!new)>(leq: (T, T) -> bool) {
    && (forall x, y :: leq(x, y) || leq(y, x))
    && (forall x, y, z :: leq(x, y) && leq(y, z) ==> leq(x, z))
  }

  ghost predicate AntiSymmetric<T(!new)>(leq: (T, T) -> bool) {
    forall x, y :: leq(x, y) && leq(y, x) ==> x == y
  }

  ghost predicate SortedBy<T>(leq: (T, T) -> bool, s: seq<T>) {
    forall i, j :: 0 <= i < j < |s| ==> leq(s[i], s[j])
  }

  function Insert<T>(leq: (T, T) -> bool, x: T, s: seq<T>): seq<T> {
    if s == [] || leq(x, s[0]) then [x] + s else [s[0]] + Insert(leq, x, s[1..])
  }

  function Sort<T>(leq: (T, T) -> bool, s: seq<T>): seq<T> {
    if s == [] then [] else Insert(leq, s[0], Sort(leq, s[1..]))
  }

  lemma {:induction false} InsertAdds<T>(leq: (T, T) -> bool, x: T, s: seq<T>)
    ensures multiset(Insert(leq, x, s)) == multiset(s) + multiset{x}
  {
    if s == [] || leq(x, s[0]) {
      assert multiset([x] + s) == multiset{x} + multiset(s);
    } else {
      InsertAdds(leq, x, s[1..]);
      assert s == [s[0]] + s[1..];
    }
  }

  lemma InsertMembers<T>(leq: (T, T) -> bool, x: T, s: seq<T>, y: T)
    requires y in Insert(leq, x, s)
    ensures y == x || y in s
  {
    InsertAdds(leq, x, s);
    assert y in multiset(Insert(leq, x, s));
  }

  lemma {:induction false} InsertKeepsOrder<T(!new)>(leq: (T, T) -> bool, x: T, s: seq<T>)
    requires TotalPreorder(leq) && SortedBy(leq, s)
    ensures SortedBy(leq, Insert(leq, x, s))
  {
    if s != [] && !leq(x, s[0]) {
      var rest := Insert(leq, x, s[1..]);
      InsertKeepsOrder(leq, x, s[1..]);
      forall j | 0 <= j < |rest|
        ensures leq(s[0], rest[j])
      {
        InsertMembers(leq, x, s[1..], rest[j]);
      }
    }
  }

  /** `Sort` really sorts: ordered, and a permutation of its input. */
  lemma {:induction false} SortSorts<T(!new)>(leq: (T, T) -> bool, s: seq<T>)
    requires TotalPreorder(leq)
    ensures SortedBy(leq, Sort(leq, s))
    ensures multiset(Sort(leq, s)) == multiset(s)
  {
    if s != [] {
      SortSorts(leq, s[1..]);
      InsertKeepsOrder(leq, s[0], Sort(leq, s[1..]));
      InsertAdds(leq, s[0], Sort(leq, s[1..]));
      assert s == [s[0]] + s[1..];
    }
  }

  lemma SortElements<T(!new)>(leq: (T, T) -> bool, s: seq<T>)
    requires TotalPreorder(leq)
    ensures Elements(Sort(leq, s)) == Elements(s) && |Sort(leq, s)| == |s|
  {
    SortSorts(leq, s);
    forall x
      ensures x in Sort(leq, s) <==> x in s
    {
      assert x in multiset(Sort(leq, s)) <==> x in multiset(s);
    }
    assert |multiset(Sort(leq, s))| == |Sort(leq, s)|;
  }

  lemma SortedHeadIsLeast<T(!new)>(leq: (T, T) -> bool, a: seq<T>, b: seq<T>)
    requires TotalPreorder(leq) && SortedBy(leq, a)
    requires multiset(a) == multiset(b) && a != [] && b != []
    ensures leq(a[0], b[0])
  {
    assert b[0] in multiset(a);
    var j :| 0 <= j < |a| && a[j] == b[0];
    assert leq(a[0], a[0]) && leq(a[0], a[j]);
  }

  lemma TailMultiset<T>(a: seq<T>)
    requires a != []
    ensures a == [a[0]] + a[1..]
    ensures multiset(a[1..]) == multiset(a) - multiset{a[0]}
  {
    assert a == [a[0]] + a[1..];
    assert multiset(a) == multiset{a[0]} + multiset(a[1..]);
  }

  /** For a total order, a multiset has only one sorted arrangement. */
  lemma {:induction false} SortedIsUnique<T(!new)>(leq: (T, T) -> bool, a: seq<T>, b: seq<T>)
    requires TotalPreorder(leq) && AntiSymmetric(leq)
    requires SortedBy(leq, a) && SortedBy(leq, b)
    requires multiset(a) == multiset(b)
    ensures a == b
  {
    assert |a| == |multiset(a)| == |multiset(b)| == |b|;
    if a != [] {
      SortedHeadIsLeast(leq, a, b);
      SortedHeadIsLeast(leq, b, a);
      TailMultiset(a);
      TailMultiset(b);
      SortedIsUnique(leq, a[1..], b[1..]);
    }
  }

  lemma SortDependsOnlyOnMultiset<T(!new)>(leq: (T, T) -> bool, a: seq<T>, b: seq<T>)
    requires TotalPreorder(leq) && AntiSymmetric(leq)
    requires multiset(a) == multiset(b)
    ensures Sort(leq, a) == Sort(leq, b)
  {
    SortSorts(leq, a);
    SortSorts(leq, b);
    SortedIsUnique(leq, Sort(leq, a), Sort(leq, b));
  }

  // ---- strings, in code-point order ------------------------------------------------

  predicate StringLeq(a: string, b: string) {
    || a == []
    || (b != [] && (a[0] < b[0] || (a[0] == b[0] && StringLeq(a[1..], b[1..]))))
  }

  /** The order is by code point at the first difference, a proper prefix coming first. */
  lemma {:induction false} StringLeqIsLexicographic(a: string, b: string)
    ensures StringLeq(a, b) <==>
            || a <= b
            || exists i :: 0 <= i < |a| && i < |b| && a[..i] == b[..i] && a[i] < b[i]
  {
    if a != [] && b != [] {
      assert a == [a[0]] + a[1..] && b == [b[0]] + b[1..];
      StringLeqIsLexicographic(a[1..], b[1..]);
      if i :| 0 <= i < |a| - 1 && i < |b| - 1 && a[0] == b[0] && a[1..][..i] == b[1..][..i] && a[1..][i] < b[1..][i] {
        assert a[..i + 1] == [a[0]] + a[1..][..i] && b[..i + 1] == [b[0]] + b[1..][..i];
        assert a[i + 1] < b[i + 1];
      }
      if a[0] < b[0] {
        assert a[..0] == b[..0];
      }
      if i :| 0 < i < |a| && i < |b| && a[..i] == b[..i] && a[i] < b[i] {
        assert a[0] == a[..i][0] == b[..i][0] == b[0];
        assert a[1..][..i - 1] == a[..i][1..] && b[1..][..i - 1] == b[..i][1..];
        assert a[1..][i - 1] < b[1..][i - 1];
      }
    }
  }

  lemma {:induction false} StringLeqTotal(a: string, b: string)
    ensures StringLeq(a, b) || StringLeq(b, a)
    ensures StringLeq(a, b) && StringLeq(b, a) ==> a == b
  {
    if a != [] && b != [] {
      StringLeqTotal(a[1..], b[1..]);
      assert a == [a[0]] + a[1..] && b == [b[0]] + b[1..];
    }
  }

  lemma {:induction false} StringLeqTransitive(a: string, b: string, c: string)
    requires StringLeq(a, b) && StringLeq(b, c)
    ensures StringLeq(a, c)
  {
    if a != [] && a[0] == b[0] == c[0] {
      StringLeqTransitive(a[1..], b[1..], c[1..]);
    }
  }

  lemma StringOrder()
    ensures TotalPreorder(StringLeq) && AntiSymmetric(StringLeq)
  {
    forall a, b
      ensures StringLeq(a, b) || StringLeq(b, a)
      ensures StringLeq(a, b) && StringLeq(b, a) ==> a == b
    {
      StringLeqTotal(a, b);
    }
    forall a, b, c | StringLeq(a, b) && StringLeq(b, c)
      ensures StringLeq(a, c)
    {
      StringLeqTransitive(a, b, c);
    }
  }

  function SortStrings(s: seq<string>): seq<string> {
    Sort(StringLeq, s)
  }

  /** Sorting keeps exactly the multiset. */
  lemma SortedIffSameMultiset(a: seq<string>, b: seq<string>)
    ensures SortStrings(a) == SortStrings(b) <==> multiset(a) == multiset(b)
  {
    StringOrder();
    SortSorts(StringLeq, a);
    SortSorts(StringLeq, b);
    if multiset(a) == multiset(b) {
      SortDependsOnlyOnMultiset(StringLeq, a, b);
    }
  }

  /** First occurrences only: what building a Python set from a list keeps. */
  function Distinct<T(==)>(s: seq<T>): seq<T> {
    if s == [] then []
    else
      var init := Distinct(s[..|s| - 1]);
      if s[|s| - 1] in init then init else init + [s[|s| - 1]]
  }

  lemma {:induction false} DistinctKeepsElements<T>(s: seq<T>)
    ensures NoDuplicates(Distinct(s)) && Elements(Distinct(s)) == Elements(s)
  {
    if s != [] {
      DistinctKeepsElements(s[..|s| - 1]);
      assert s == s[..|s| - 1] + [s[|s| - 1]];
      ElementsOfAppend(s[..|s| - 1], s[|s| - 1]);
      ElementsOfAppend(Distinct(s[..|s| - 1]), s[|s| - 1]);
      assert s[|s| - 1] in Distinct(s[..|s| - 1]) <==> s[|s| - 1] in Elements(Distinct(s[..|s| - 1]));
    }
  }

  /** Python's `sorted(set(s))`. */
  function SortedSet(s: seq<string>): seq<string> {
    SortStrings(Distinct(s))
  }

  /** `sorted(set(s))` has the members of `s` and nothing else about `s` can be read from it. */
  lemma SortedSetIsCanonical(a: seq<string>, b: seq<string>)
    ensures Elements(SortedSet(a)) == Elements(a)
    ensures SortedSet(a) == SortedSet(b) <==> Elements(a) == Elements(b)
  {
    StringOrder();
    DistinctKeepsElements(a);
    DistinctKeepsElements(b);
    SortElements(StringLeq, Distinct(a));
    SortElements(StringLeq, Distinct(b));
    if Elements(a) == Elements(b) {
      NoDuplicatesMultiset(Distinct(a), Distinct(b));
      SortDependsOnlyOnMultiset(StringLeq, Distinct(a), Distinct(b));
    }
  }

  lemma SortedSetIsSorted(s: seq<string>)
    ensures SortedBy(StringLeq, SortedSet(s)) && NoDuplicates(SortedSet(s))
  {
    StringOrder();
    DistinctKeepsElements(s);
    SortSorts(StringLeq, Distinct(s));
    SortElements(StringLeq, Distinct(s));
    ElementsCardinality(Distinct(s));
    ElementsCardinality(SortedSet(s));
  }

  // ---- the first match of a stable sort ---------------------------------------------

  function FirstMatch<T>(s: seq<T>, p: T -> bool): Option<T> {
    if s == [] then None else if p(s[0]) then Some(s[0]) else FirstMatch(s[1..], p)
  }

  /** s[i] satisfies p, nothing smaller does, and nothing equally small does earlier in the list. */
  ghost predicate LeastMatch<T>(leq: (T, T) -> bool, s: seq<T>, p: T -> bool, i: int) {
    && 0 <= i < |s| && p(s[i])
    && (forall j :: 0 <= j < |s| && p(s[j]) ==> leq(s[i], s[j]))
    && (forall j :: 0 <= j < i && p(s[j]) ==> !leq(s[j], s[i]))
  }

  lemma {:induction false} FirstMatchOfInsert<T(!new)>(leq: (T, T) -> bool, x: T, s: seq<T>, p: T -> bool)
    requires TotalPreorder(leq) && SortedBy(leq, s)
    ensures FirstMatch(Insert(leq, x, s), p) ==
            var rest := FirstMatch(s, p);
            if !p(x) then rest else if rest.None? || leq(x, rest.value) then Some(x) else rest
  {
    FirstMatchIsMember(s, p);
    if s == [] || leq(x, s[0]) {
      assert ([x] + s)[1..] == s;
    } else {
      FirstMatchOfInsert(leq, x, s[1..], p);
      assert ([s[0]] + Insert(leq, x, s[1..]))[1..] == Insert(leq, x, s[1..]);
      assert s == [s[0]] + s[1..];
      FirstMatchIsMember(s[1..], p);
    }
  }

  lemma {:induction false} FirstMatchIsMember<T>(s: seq<T>, p: T -> bool)
    ensures var m := FirstMatch(s, p);
            if m.None? then forall x :: x in s ==> !p(x) else m.value in s && p(m.value)
  {
    if s != [] {
      FirstMatchIsMember(s[1..], p);
      assert s == [s[0]] + s[1..];
    }
  }

  /** Where the first match is: nothing before it matches. */
  lemma {:induction false} FirstMatchPosition<T>(s: seq<T>, p: T -> bool) returns (i: nat)
    ensures var m := FirstMatch(s, p);
            if m.None? then forall k :: 0 <= k < |s| ==> !p(s[k])
            else i < |s| && p(s[i]) && s[i] == m.value && forall k :: 0 <= k < i ==> !p(s[k])
  {
    i := 0;
    if s != [] && !p(s[0]) {
      var j := FirstMatchPosition(s[1..], p);
      i := j + 1;
      assert forall k :: 0 < k < |s| ==> s[k] == s[1..][k - 1];
    }
  }

  /** Whoever matches first in the list at position i is the first match. */
  lemma {:induction false} FirstMatchAt<T>(s: seq<T>, p: T -> bool, i: nat)
    requires i < |s| && p(s[i]) && forall k :: 0 <= k < i ==> !p(s[k])
    ensures FirstMatch(s, p) == Some(s[i])
  {
    if i > 0 {
      FirstMatchAt(s[1..], p, i - 1);
    }
  }

  lemma {:induction false} FirstMatchInPrefix<T>(s: seq<T>, longer: seq<T>, p: T -> bool)
    requires s <= longer && FirstMatch(s, p).Some?
    ensures FirstMatch(longer, p) == FirstMatch(s, p)
  {
    if !p(s[0]) {
      FirstMatchInPrefix(s[1..], longer[1..], p);
    }
  }

  /** Scanning the stably sorted list stops at the least match of the original list, earliest on ties. */
  lemma {:induction false} FirstMatchOfSort<T(!new)>(leq: (T, T) -> bool, s: seq<T>, p: T -> bool)
    returns (i: int)
    requires TotalPreorder(leq)
    ensures FirstMatch(Sort(leq, s), p).None? <==> forall x :: x in s ==> !p(x)
    ensures FirstMatch(Sort(leq, s), p).Some? ==>
              LeastMatch(leq, s, p, i) && FirstMatch(Sort(leq, s), p).value == s[i]
  {
    i := 0;
    if s != [] {
      var k := FirstMatchOfSort(leq, s[1..], p);
      SortSorts(leq, s[1..]);
      FirstMatchOfInsert(leq, s[0], Sort(leq, s[1..]), p);
      assert s == [s[0]] + s[1..];
      var rest := FirstMatch(Sort(leq, s[1..]), p);
      if rest.Some? && !(p(s[0]) && leq(s[0], rest.value)) {
        i := k + 1;
        assert forall j :: 0 < j < |s| ==> s[j] == s[1..][j - 1];
      } else if p(s[0]) {
        forall j | 0 <= j < |s| && p(s[j])
          ensures leq(s[0], s[j])
        {
          if j > 0 {
            assert s[j] == s[1..][j - 1];
          } else {
            assert leq(s[0], s[0]);
          }
        }
      }
    }
  }
}
