/**
 `Array.prototype.sort` with a comparator, specified by what every conforming
 engine must produce: for a consistent comparator there is exactly one stable
 sorted permutation, so the insertion sort below stands for all of them.

 `le(x, y)` is `compare(x, y) <= 0`.
 */
module StableSort {

  function Filter<T(!new)>(s: seq<T>, keep: T -> bool): (r: seq<T>)
    ensures forall x | x in r :: x in s && keep(x)
    ensures forall x | x in s && keep(x) :: x in r
  {
    if s == [] then []
    else
      var n := |s| - 1;
      assert s == s[..n] + [s[n]];
      if keep(s[n]) then Filter(s[..n], keep) + [s[n]] else Filter(s[..n], keep)
  }

  /** The comparator is consistent on u: any two elements compare, transitively. */
  ghost predicate PreorderOn<T(!new)>(u: seq<T>, le: (T, T) -> bool) {
    && (forall x, y | x in u && y in u :: le(x, y) || le(y, x))
    && (forall x, y, z | x in u && y in u && z in u :: le(x, y) && le(y, z) ==> le(x, z))
  }

  predicate Same<T(!new)>(x: T, y: T, le: (T, T) -> bool) {
    le(x, y) && le(y, x)
  }

  ghost predicate Sorted<T(!new)>(s: seq<T>, le: (T, T) -> bool) {
    forall i, j | 0 <= i < j < |s| :: le(s[i], s[j])
  }

  /** The elements of s that compare equal to y, in order. */
  function Class<T(!new)>(s: seq<T>, y: T, le: (T, T) -> bool): seq<T> {
    if s == [] then []
    else if Same(s[|s| - 1], y, le) then Class(s[..|s| - 1], y, le) + [s[|s| - 1]]
    else Class(s[..|s| - 1], y, le)
  }

  /** t is s rearranged, in order, equal elements as they stood in s. */
  ghost predicate IsStableSort<T(!new)>(s: seq<T>, t: seq<T>, le: (T, T) -> bool) {
    && multiset(t) == multiset(s)
    && Sorted(t, le)
    && forall y | y in s :: Class(t, y, le) == Class(s, y, le)
  }

  /** x placed after everything that does not exceed it. */
  function Insert<T(!new)>(t: seq<T>, x: T, le: (T, T) -> bool): seq<T> {
    if t == [] || le(t[|t| - 1], x) then t + [x]
    else Insert(t[..|t| - 1], x, le) + [t[|t| - 1]]
  }

  function Sort<T(!new)>(s: seq<T>, le: (T, T) -> bool): seq<T> {
    if s == [] then [] else Insert(Sort(s[..|s| - 1], le), s[|s| - 1], le)
  }

  lemma {:induction false} InsertContents<T(!new)>(t: seq<T>, x: T, le: (T, T) -> bool)
    ensures multiset(Insert(t, x, le)) == multiset(t) + multiset{x}
  {
    if t != [] && !le(t[|t| - 1], x) {
      var n := |t| - 1;
      InsertContents(t[..n], x, le);
      assert t == t[..n] + [t[n]];
    }
  }

  lemma {:induction false} InsertMembers<T(!new)>(t: seq<T>, x: T, le: (T, T) -> bool)
    ensures forall y | y in Insert(t, x, le) :: y == x || y in t
  {
    if t != [] && !le(t[|t| - 1], x) {
      InsertMembers(t[..|t| - 1], x, le);
    }
  }

  lemma {:induction false} InsertSorted<T(!new)>(u: seq<T>, t: seq<T>, x: T, le: (T, T) -> bool)
    requires PreorderOn(u, le) && x in u && forall y | y in t :: y in u
    requires Sorted(t, le)
    ensures Sorted(Insert(t, x, le), le)
  {
    if t == [] {
    } else if le(t[|t| - 1], x) {
      assert forall i | 0 <= i < |t| :: t[i] in t && le(t[i], x);
    } else {
      var n := |t| - 1;
      InsertSorted(u, t[..n], x, le);
      InsertMembers(t[..n], x, le);
      assert le(x, t[n]) by { assert t[n] in t; }
      var front := Insert(t[..n], x, le);
      forall i | 0 <= i < |front| ensures le(front[i], t[n]) {
        assert front[i] in front;
      }
    }
  }

  /** Past the new element come only larger ones. */
  lemma {:induction false} InsertPlace<T(!new)>(t: seq<T>, x: T, le: (T, T) -> bool) returns (k: nat)
    ensures k < |Insert(t, x, le)| && Insert(t, x, le)[k] == x
    ensures forall j | k < j < |Insert(t, x, le)| :: !le(Insert(t, x, le)[j], x)
  {
    if t == [] || le(t[|t| - 1], x) {
      k := |t|;
    } else {
      k := InsertPlace(t[..|t| - 1], x, le);
    }
  }

  /** The last element of the input is placed after all that compare equal to it. */
  lemma SortPlacesLast<T(!new)>(s: seq<T>, x: T, le: (T, T) -> bool) returns (k: nat)
    ensures k < |Sort(s + [x], le)| && Sort(s + [x], le)[k] == x
    ensures forall j | k < j < |Sort(s + [x], le)| :: !le(Sort(s + [x], le)[j], x)
  {
    assert (s + [x])[..|s|] == s;
    k := InsertPlace(Sort(s, le), x, le);
  }

  lemma {:induction false} ClassSnoc<T(!new)>(s: seq<T>, x: T, y: T, le: (T, T) -> bool)
    ensures Class(s + [x], y, le) == Class(s, y, le) + (if Same(x, y, le) then [x] else [])
  {
    assert (s + [x])[..|s|] == s;
  }

  lemma NotBothSame<T(!new)>(u: seq<T>, a: T, x: T, y: T, le: (T, T) -> bool)
    requires PreorderOn(u, le) && a in u && x in u && y in u && !le(a, x)
    ensures !(Same(a, y, le) && Same(x, y, le))
  {
  }

  lemma {:induction false} InsertClass<T(!new)>(u: seq<T>, t: seq<T>, x: T, y: T, le: (T, T) -> bool)
    requires PreorderOn(u, le) && x in u && y in u && forall z | z in t :: z in u
    ensures Class(Insert(t, x, le), y, le) == Class(t, y, le) + (if Same(x, y, le) then [x] else [])
  {
    if t == [] || le(t[|t| - 1], x) {
      ClassSnoc(t, x, y, le);
    } else {
      var n := |t| - 1;
      assert t[n] in t && forall z | z in t[..n] :: z in t;
      InsertClass(u, t[..n], x, y, le);
      ClassSnoc(Insert(t[..n], x, le), t[n], y, le);
      NotBothSame(u, t[n], x, y, le);
      if Same(x, y, le) {
        assert Class(t, y, le) == Class(t[..n], y, le);
      } else {
        assert Class(t[..n], y, le) + [] == Class(t[..n], y, le);
      }
    }
  }

  lemma {:induction false} SortContents<T(!new)>(s: seq<T>, le: (T, T) -> bool)
    ensures multiset(Sort(s, le)) == multiset(s)
  {
    if s != [] {
      var n := |s| - 1;
      assert s == s[..n] + [s[n]];
      SortContents(s[..n], le);
      InsertContents(Sort(s[..n], le), s[n], le);
    }
  }

  lemma SortMembers<T(!new)>(s: seq<T>, le: (T, T) -> bool)
    ensures |Sort(s, le)| == |s|
    ensures forall x | x in Sort(s, le) :: x in s
    ensures forall x | x in s :: x in Sort(s, le)
  {
    SortContents(s, le);
    SameMembers(Sort(s, le), s);
  }

  lemma {:induction false} SortSorted<T(!new)>(s: seq<T>, u: seq<T>, le: (T, T) -> bool)
    requires PreorderOn(u, le) && forall x | x in s :: x in u
    ensures Sorted(Sort(s, le), le)
  {
    if s != [] {
      var n := |s| - 1;
      assert s == s[..n] + [s[n]];
      SortSorted(s[..n], u, le);
      SortMembers(s[..n], le);
      InsertSorted(u, Sort(s[..n], le), s[n], le);
    }
  }

  lemma {:induction false} SortKeepsClass<T(!new)>(s: seq<T>, u: seq<T>, y: T, le: (T, T) -> bool)
    requires PreorderOn(u, le) && y in u && forall x | x in s :: x in u
    ensures Class(Sort(s, le), y, le) == Class(s, y, le)
  {
    if s != [] {
      var n := |s| - 1;
      assert s == s[..n] + [s[n]];
      SortKeepsClass(s[..n], u, y, le);
      SortMembers(s[..n], le);
      InsertClass(u, Sort(s[..n], le), s[n], y, le);
    }
  }

  lemma SortIsStable<T(!new)>(s: seq<T>, le: (T, T) -> bool)
    requires PreorderOn(s, le)
    ensures IsStableSort(s, Sort(s, le), le)
  {
    SortContents(s, le);
    SortSorted(s, s, le);
    forall y | y in s ensures Class(Sort(s, le), y, le) == Class(s, y, le) {
      SortKeepsClass(s, s, y, le);
    }
  }

  lemma SameMembers<T(!new)>(s: seq<T>, t: seq<T>)
    requires multiset(s) == multiset(t)
    ensures |s| == |t| && forall x :: x in s <==> x in t
  {
    assert |s| == |multiset(s)| && |t| == |multiset(t)|;
    forall x ensures x in s <==> x in t {
      assert x in s <==> x in multiset(s);
      assert x in t <==> x in multiset(t);
    }
  }

  // -------------------------------------------------------------- uniqueness

  lemma {:induction false} ClassMembers<T(!new)>(s: seq<T>, y: T, le: (T, T) -> bool)
    ensures forall x :: x in Class(s, y, le) <==> x in s && Same(x, y, le)
  {
    if s != [] {
      var n := |s| - 1;
      ClassMembers(s[..n], y, le);
      assert s == s[..n] + [s[n]];
    }
  }

  lemma {:induction false} SortedUnique<T(!new)>(u: seq<T>, s: seq<T>, t: seq<T>, le: (T, T) -> bool)
    requires PreorderOn(u, le) && (forall x | x in s || x in t :: x in u)
    requires Sorted(s, le) && Sorted(t, le) && |s| == |t|
    requires forall y | y in u :: Class(s, y, le) == Class(t, y, le)
    ensures s == t
    decreases |s|
  {
    if s != [] {
      LastsAgree(u, s, t, le);
      var n := |s| - 1;
      FrontClasses(u, s, t, le);
      FrontSorted(u, s, le);
      FrontSorted(u, t, le);
      SortedUnique(u, s[..n], t[..n], le);
      FrontAndLast(s, t, n);
    }
  }

  lemma FrontAndLast<T(!new)>(s: seq<T>, t: seq<T>, n: nat)
    requires |s| == |t| == n + 1 && s[..n] == t[..n] && s[n] == t[n]
    ensures s == t
  {
    assert s == s[..n] + [s[n]] && t == t[..n] + [t[n]];
  }

  lemma FrontSorted<T(!new)>(u: seq<T>, s: seq<T>, le: (T, T) -> bool)
    requires s != [] && Sorted(s, le) && forall x | x in s :: x in u
    ensures Sorted(s[..|s| - 1], le) && forall x | x in s[..|s| - 1] :: x in u
  {
  }

  lemma FrontClasses<T(!new)>(u: seq<T>, s: seq<T>, t: seq<T>, le: (T, T) -> bool)
    requires s != [] && t != [] && s[|s| - 1] == t[|t| - 1]
    requires forall y | y in u :: Class(s, y, le) == Class(t, y, le)
    ensures forall y | y in u :: Class(s[..|s| - 1], y, le) == Class(t[..|t| - 1], y, le)
  {
    forall y | y in u ensures Class(s[..|s| - 1], y, le) == Class(t[..|t| - 1], y, le) {
      var last := s[|s| - 1];
      DropEqualEnds(Class(s[..|s| - 1], y, le), Class(t[..|t| - 1], y, le), if Same(last, y, le) then [last] else []);
    }
  }

  lemma DropEqualEnds<T(!new)>(a: seq<T>, b: seq<T>, c: seq<T>)
    requires a + c == b + c
    ensures a == b
  {
    assert |a| == |b|;
    assert a == (a + c)[..|a|] && b == (b + c)[..|b|];
  }

  lemma MembersAgree<T(!new)>(u: seq<T>, s: seq<T>, t: seq<T>, le: (T, T) -> bool)
    requires PreorderOn(u, le) && (forall x | x in s || x in t :: x in u)
    requires forall y | y in u :: Class(s, y, le) == Class(t, y, le)
    ensures forall y | y in s || y in t :: y in s && y in t
  {
    forall y | y in s || y in t ensures y in s && y in t {
      ClassMembers(s, y, le);
      ClassMembers(t, y, le);
    }
  }

  lemma LastsAgree<T(!new)>(u: seq<T>, s: seq<T>, t: seq<T>, le: (T, T) -> bool)
    requires PreorderOn(u, le) && (forall x | x in s || x in t :: x in u)
    requires Sorted(s, le) && Sorted(t, le) && s != [] && t != []
    requires forall y | y in u :: Class(s, y, le) == Class(t, y, le)
    ensures s[|s| - 1] == t[|t| - 1]
  {
    var a, b := s[|s| - 1], t[|t| - 1];
    assert a in s && b in t && a in u && b in u;
    MembersAgree(u, s, t, le);
    BelowLast(t, a, le);
    BelowLast(s, b, le);
    assert le(a, a) && le(b, b);
    ClassEnd(s, a, le);
    ClassEnd(t, a, le);
  }

  lemma BelowLast<T(!new)>(t: seq<T>, x: T, le: (T, T) -> bool)
    requires Sorted(t, le) && x in t
    ensures le(x, t[|t| - 1]) || x == t[|t| - 1]
  {
    var i :| 0 <= i < |t| && t[i] == x;
  }

  lemma ClassEnd<T(!new)>(s: seq<T>, y: T, le: (T, T) -> bool)
    requires s != [] && Same(s[|s| - 1], y, le)
    ensures var c := Class(s, y, le); c != [] && c[|c| - 1] == s[|s| - 1]
  {
  }

  /** Any stable sort, however computed, gives the same list. */
  lemma StableSortUnique<T(!new)>(s: seq<T>, t: seq<T>, le: (T, T) -> bool)
    requires PreorderOn(s, le) && IsStableSort(s, t, le)
    ensures t == Sort(s, le)
  {
    SortIsStable(s, le);
    SameMembers(s, t);
    SameMembers(s, Sort(s, le));
    SortedUnique(s, t, Sort(s, le), le);
  }

  /** Two rearrangements of one list sort alike exactly when elements that compare equal stand in one order in both. */
  lemma SortSameIff<T(!new)>(s: seq<T>, t: seq<T>, le: (T, T) -> bool)
    requires PreorderOn(s, le) && multiset(s) == multiset(t)
    ensures Sort(s, le) == Sort(t, le) <==> forall y | y in s :: Class(s, y, le) == Class(t, y, le)
  {
    SameMembers(s, t);
    SortIsStable(t, le);
    forall y | y in s ensures Class(Sort(s, le), y, le) == Class(s, y, le) {
      SortKeepsClass(s, s, y, le);
    }
    if forall y | y in s :: Class(s, y, le) == Class(t, y, le) {
      StableSortUnique(s, Sort(t, le), le);
    }
  }

  /** When only identical elements compare equal, the order of the input does not matter. */
  lemma SortForgetsOrder<T(!new)>(s: seq<T>, t: seq<T>, le: (T, T) -> bool)
    requires PreorderOn(s, le) && multiset(s) == multiset(t)
    requires forall x, y | x in s && y in s && Same(x, y, le) :: x == y
    ensures Sort(s, le) == Sort(t, le)
  {
    SameMembers(s, t);
    forall y | y in s ensures Class(s, y, le) == Class(t, y, le) {
      ClassCopies(s, s, y, le);
      ClassCopies(t, s, y, le);
    }
    SortSameIff(s, t, le);
  }

  lemma {:induction false} ClassCopies<T(!new)>(s: seq<T>, u: seq<T>, y: T, le: (T, T) -> bool)
    requires PreorderOn(u, le) && y in u && forall x | x in s :: x in u
    requires forall x | x in u && Same(x, y, le) :: x == y
    ensures Class(s, y, le) == seq(multiset(s)[y], _ => y)
  {
    if s != [] {
      var n := |s| - 1;
      assert s == s[..n] + [s[n]];
      ClassCopies(s[..n], u, y, le);
    }
  }

  // ------------------------------------------------------ filtering and sorting

  lemma FilterSnoc<T(!new)>(s: seq<T>, x: T, keep: T -> bool)
    ensures Filter(s + [x], keep) == Filter(s, keep) + (if keep(x) then [x] else [])
  {
    assert (s + [x])[..|s|] == s;
  }

  lemma {:induction false} FilterCommutes<T(!new)>(s: seq<T>, keep: T -> bool, also: T -> bool)
    ensures Filter(Filter(s, keep), also) == Filter(Filter(s, also), keep)
  {
    if s != [] {
      var n := |s| - 1;
      FilterCommutes(s[..n], keep, also);
      if keep(s[n]) { FilterSnoc(Filter(s[..n], keep), s[n], also); }
      if also(s[n]) { FilterSnoc(Filter(s[..n], also), s[n], keep); }
    }
  }

  lemma {:induction false} FilterCount<T(!new)>(s: seq<T>, keep: T -> bool, x: T)
    ensures multiset(Filter(s, keep))[x] == if keep(x) then multiset(s)[x] else 0
  {
    if s != [] {
      var n := |s| - 1;
      FilterCount(s[..n], keep, x);
      assert s == s[..n] + [s[n]];
    }
  }

  lemma FilterForgetsOrder<T(!new)>(s: seq<T>, t: seq<T>, keep: T -> bool)
    requires multiset(s) == multiset(t)
    ensures multiset(Filter(s, keep)) == multiset(Filter(t, keep))
  {
    forall x ensures multiset(Filter(s, keep))[x] == multiset(Filter(t, keep))[x] {
      FilterCount(s, keep, x);
      FilterCount(t, keep, x);
    }
  }

  lemma {:induction false} FilterClass<T(!new)>(s: seq<T>, keep: T -> bool, y: T, le: (T, T) -> bool)
    ensures Class(Filter(s, keep), y, le) == Filter(Class(s, y, le), keep)
  {
    if s != [] {
      var n := |s| - 1;
      FilterClass(s[..n], keep, y, le);
      if Same(s[n], y, le) { FilterSnoc(Class(s[..n], y, le), s[n], keep); }
      if keep(s[n]) { ClassSnoc(Filter(s[..n], keep), s[n], y, le); }
    }
  }

  // ------------------------------------------------- pairwise distinct elements

  ghost predicate Pairwise<T(!new)>(s: seq<T>, apart: (T, T) -> bool) {
    forall i, j | 0 <= i < j < |s| :: apart(s[i], s[j])
  }

  ghost predicate Apartness<T(!new)>(apart: (T, T) -> bool) {
    (forall x :: !apart(x, x)) && forall x, y :: apart(x, y) ==> apart(y, x)
  }

  lemma {:induction false} PairwiseOnce<T(!new)>(s: seq<T>, x: T, apart: (T, T) -> bool)
    requires Apartness(apart) && Pairwise(s, apart)
    ensures multiset(s)[x] <= 1
  {
    if s != [] {
      var n := |s| - 1;
      PairwiseOnce(s[..n], x, apart);
      assert s == s[..n] + [s[n]];
      if s[n] == x {
        assert x !in s[..n];
      }
    }
  }

  lemma TwoOccurrences<T(!new)>(t: seq<T>, i: nat, j: nat)
    requires i < j < |t|
    ensures t[i] == t[j] ==> multiset(t)[t[i]] >= 2
  {
    assert t == t[..i] + [t[i]] + t[i + 1..j] + [t[j]] + t[j + 1..];
  }

  /** Being pairwise apart depends only on which elements there are and how often. */
  lemma PairwiseForgetsOrder<T(!new)>(s: seq<T>, t: seq<T>, apart: (T, T) -> bool)
    requires Apartness(apart) && multiset(s) == multiset(t) && Pairwise(s, apart)
    ensures Pairwise(t, apart)
  {
    SameMembers(s, t);
    forall i, j | 0 <= i < j < |t| ensures apart(t[i], t[j]) {
      PairwiseOnce(s, t[i], apart);
      TwoOccurrences(t, i, j);
      assert t[i] in t && t[j] in t;
      var k, l :| 0 <= k < |s| && 0 <= l < |s| && s[k] == t[i] && s[l] == t[j];
      assert k != l;
    }
  }
}
