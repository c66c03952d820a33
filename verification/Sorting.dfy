// Sorting by a strict order by insertion, and why the result does not depend on the order
// in which the elements are given, only on which they are.
module Sorting {

  ghost predicate StrictOrder<T(!new)>(less: (T, T) -> bool) {
    && (forall x :: !less(x, x))
    && forall x, y, z :: less(x, y) && less(y, z) ==> less(x, z)
  }

  /** Any two elements at different places are ordered one way or the other. */
  predicate Comparable<T>(less: (T, T) -> bool, s: seq<T>) {
    forall i, j | 0 <= i < j < |s| :: less(s[i], s[j]) || less(s[j], s[i])
  }

  predicate Increasing<T>(less: (T, T) -> bool, s: seq<T>) {
    forall i, j | 0 <= i < j < |s| :: less(s[i], s[j])
  }

  function Insert<T>(less: (T, T) -> bool, x: T, s: seq<T>): (r: seq<T>)
    ensures |r| == |s| + 1
  {
    if s == [] || less(x, s[0]) then [x] + s else [s[0]] + Insert(less, x, s[1..])
  }

  function Sorted<T>(less: (T, T) -> bool, s: seq<T>): (r: seq<T>)
    ensures |r| == |s|
  {
    if s == [] then [] else Insert(less, s[0], Sorted(less, s[1..]))
  }

  lemma {:induction false} InsertKeeps<T>(less: (T, T) -> bool, x: T, s: seq<T>)
    ensures multiset(Insert(less, x, s)) == multiset{x} + multiset(s)
    decreases |s|
  {
    if s != [] && !less(x, s[0]) {
      InsertKeeps(less, x, s[1..]);
      assert s == [s[0]] + s[1..];
    }
  }

  lemma {:induction false} SortKeeps<T>(less: (T, T) -> bool, s: seq<T>)
    ensures multiset(Sorted(less, s)) == multiset(s)
    decreases |s|
  {
    if s != [] {
      SortKeeps(less, s[1..]);
      InsertKeeps(less, s[0], Sorted(less, s[1..]));
      assert s == [s[0]] + s[1..];
    }
  }

  lemma {:induction false} InsertIncreases<T(!new)>(less: (T, T) -> bool, x: T, s: seq<T>)
    requires StrictOrder(less) && Increasing(less, s) && forall y | y in s :: less(x, y) || less(y, x)
    ensures Increasing(less, Insert(less, x, s))
    decreases |s|
  {
    if s != [] && !less(x, s[0]) {
      assert s[0] in s && less(s[0], x);
      InsertIncreases(less, x, s[1..]);
      InsertKeeps(less, x, s[1..]);
      var rest := Insert(less, x, s[1..]);
      forall y | y in rest ensures less(s[0], y) {
        assert y in multiset(rest);
        assert y in multiset{x} + multiset(s[1..]);
        assert y == x || y in s[1..];
      }
    }
  }

  lemma {:induction false} SortIncreases<T(!new)>(less: (T, T) -> bool, s: seq<T>)
    requires StrictOrder(less) && Comparable(less, s)
    ensures Increasing(less, Sorted(less, s))
    decreases |s|
  {
    if s != [] {
      assert Comparable(less, s[1..]);
      SortIncreases(less, s[1..]);
      var rest := Sorted(less, s[1..]);
      SortKeeps(less, s[1..]);
      forall y | y in rest ensures less(s[0], y) || less(y, s[0]) {
        assert y in multiset(rest);
        var i :| 0 <= i < |s[1..]| && s[1..][i] == y;
        assert y == s[i + 1];
      }
      InsertIncreases(less, s[0], rest);
    }
  }

  lemma SmallestIsFirst<T(!new)>(less: (T, T) -> bool, a: seq<T>, b: seq<T>)
    requires StrictOrder(less) && Increasing(less, a) && Increasing(less, b) && multiset(a) == multiset(b) && a != []
    requires b != []
    ensures a[0] == b[0]
  {
    assert a[0] in multiset(a) && b[0] in multiset(b);
    assert a[0] in b && b[0] in a;
  }

  lemma RestIsSame<T>(a: seq<T>, b: seq<T>)
    requires a != [] && b != [] && a[0] == b[0] && multiset(a) == multiset(b)
    ensures multiset(a[1..]) == multiset(b[1..])
  {
    assert a == [a[0]] + a[1..] && b == [b[0]] + b[1..];
    assert multiset(a) == multiset{a[0]} + multiset(a[1..]) && multiset(b) == multiset{a[0]} + multiset(b[1..]);
    assert multiset(a[1..]) == multiset(a) - multiset{a[0]} && multiset(b[1..]) == multiset(b) - multiset{a[0]};
  }

  lemma SameSize<T>(a: seq<T>, b: seq<T>)
    requires multiset(a) == multiset(b)
    ensures |a| == |b|
  {
    assert |multiset(a)| == |a| && |multiset(b)| == |b|;
  }

  /** An increasing sequence is determined by its elements. */
  lemma {:induction false} IncreasingIsUnique<T(!new)>(less: (T, T) -> bool, a: seq<T>, b: seq<T>)
    requires StrictOrder(less) && Increasing(less, a) && Increasing(less, b) && multiset(a) == multiset(b)
    ensures a == b
    decreases |a|
  {
    hide StrictOrder;
    SameSize(a, b);
    if a != [] {
      SmallestIsFirst(less, a, b);
      RestIsSame(a, b);
      IncreasingIsUnique(less, a[1..], b[1..]);
      assert a == [a[0]] + a[1..] && b == [b[0]] + b[1..];
    }
  }

  lemma SameMembers<T>(a: seq<T>, b: seq<T>)
    requires multiset(a) == multiset(b)
    ensures forall x :: x in a <==> x in b
  {
    forall x ensures x in a <==> x in b {
      assert x in a <==> x in multiset(a);
      assert x in b <==> x in multiset(b);
    }
  }

  lemma {:induction false} SortOfIncreasing<T(!new)>(less: (T, T) -> bool, s: seq<T>)
    requires StrictOrder(less) && Increasing(less, s)
    ensures Sorted(less, s) == s
  {
    SortKeeps(less, s);
    SortIncreases(less, s);
    IncreasingIsUnique(less, Sorted(less, s), s);
  }

  /** The same elements in any order sort to the same sequence. */
  lemma {:induction false} SortIgnoresOrder<T(!new)>(less: (T, T) -> bool, a: seq<T>, b: seq<T>)
    requires StrictOrder(less) && Comparable(less, a) && Comparable(less, b) && multiset(a) == multiset(b)
    ensures Sorted(less, a) == Sorted(less, b)
  {
    SortKeeps(less, a);
    SortKeeps(less, b);
    SortIncreases(less, a);
    SortIncreases(less, b);
    IncreasingIsUnique(less, Sorted(less, a), Sorted(less, b));
  }

  lemma {:induction false} AdjacentIncreases<T(!new)>(less: (T, T) -> bool, s: seq<T>)
    requires StrictOrder(less) && forall i | 0 < i < |s| :: less(s[i - 1], s[i])
    ensures Increasing(less, s)
    decreases |s|
  {
    if |s| > 1 {
      var front := s[..|s| - 1];
      AdjacentIncreases(less, front);
      forall i | 0 <= i < |s| - 1 ensures less(s[i], s[|s| - 1]) {
        assert less(s[|s| - 2], s[|s| - 1]);
        if i < |s| - 2 { assert less(front[i], front[|s| - 2]); }
      }
    }
  }
}
