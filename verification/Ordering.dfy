/** Orders on strings, Python's stable sort, and listings of finite sets in order. */
module Ordering {

  // ---- Code-point order on strings ------------------------------------------------

  predicate LexLe(a: string, b: string)
    decreases |a|
  {
    a == [] || (b != [] && (a[0] < b[0] || (a[0] == b[0] && LexLe(a[1..], b[1..]))))
  }

  lemma {:induction false} LexTotal(a: string, b: string)
    ensures LexLe(a, b) || LexLe(b, a)
    decreases |a|
  {
    if a != [] && b != [] && a[0] == b[0] {
      LexTotal(a[1..], b[1..]);
    }
  }

  lemma {:induction false} LexAntisymmetric(a: string, b: string)
    requires LexLe(a, b) && LexLe(b, a)
    ensures a == b
    decreases |a|
  {
    if a != [] {
      LexAntisymmetric(a[1..], b[1..]);
      assert a == [a[0]] + a[1..] && b == [b[0]] + b[1..];
    }
  }

  lemma {:induction false} LexTransitive(a: string, b: string, c: string)
    requires LexLe(a, b) && LexLe(b, c)
    ensures LexLe(a, c)
    decreases |a|
  {
    if a != [] && a[0] == b[0] && b[0] == c[0] {
      LexTransitive(a[1..], b[1..], c[1..]);
    }
  }

  // ---- Stable sort -------------------------------------------------------------------

  ghost predicate TotalPreorder<T(!new)>(le: (T, T) -> bool) {
    && (forall x, y :: le(x, y) || le(y, x))
    && (forall x, y, z :: le(x, y) && le(y, z) ==> le(x, z))
  }

  ghost predicate Sorted<T>(s: seq<T>, le: (T, T) -> bool) {
    forall i, j | 0 <= i < j < |s| :: le(s[i], s[j])
  }

  predicate Distinct<T(==)>(s: seq<T>) {
    forall i, j | 0 <= i < j < |s| :: s[i] != s[j]
  }

  /** Puts `x` behind every element that is not greater. */
  function InsertLast<T>(s: seq<T>, x: T, le: (T, T) -> bool): seq<T> {
    if s == [] then [x]
    else if le(s[|s| - 1], x) then s + [x]
    else InsertLast(s[..|s| - 1], x, le) + [s[|s| - 1]]
  }

  /** `list.sort`: stable, one element at a time. */
  function StableSort<T>(s: seq<T>, le: (T, T) -> bool): seq<T> {
    if s == [] then []
    else InsertLast(StableSort(s[..|s| - 1], le), s[|s| - 1], le)
  }

  lemma SnocBag<T>(s: seq<T>)
    requires s != []
    ensures multiset(s) == multiset(s[..|s| - 1]) + multiset{s[|s| - 1]}
  {
    assert s == s[..|s| - 1] + [s[|s| - 1]];
  }

  lemma SwapBag<T>(a: multiset<T>, x: T, y: T)
    ensures (a + multiset{x}) + multiset{y} == (a + multiset{y}) + multiset{x}
  {
  }

  lemma {:induction false} InsertPermutes<T>(s: seq<T>, x: T, le: (T, T) -> bool)
    ensures multiset(InsertLast(s, x, le)) == multiset(s) + multiset{x}
  {
    if s != [] {
      var init, last := s[..|s| - 1], s[|s| - 1];
      InsertPermutes(init, x, le);
      SnocBag(s);
      SwapBag(multiset(init), x, last);
    } else {
      assert [] + [x] == [x];
    }
  }

  lemma {:induction false} SortPermutes<T>(s: seq<T>, le: (T, T) -> bool)
    ensures multiset(StableSort(s, le)) == multiset(s)
  {
    if s != [] {
      SortPermutes(s[..|s| - 1], le);
      InsertPermutes(StableSort(s[..|s| - 1], le), s[|s| - 1], le);
      SnocBag(s);
    }
  }

  lemma {:induction false} InsertLength<T>(s: seq<T>, x: T, le: (T, T) -> bool)
    ensures |InsertLast(s, x, le)| == |s| + 1
  {
    if s != [] {
      InsertLength(s[..|s| - 1], x, le);
    }
  }

  lemma {:induction false} SortLength<T>(s: seq<T>, le: (T, T) -> bool)
    ensures |StableSort(s, le)| == |s|
  {
    if s != [] {
      SortLength(s[..|s| - 1], le);
      InsertLength(StableSort(s[..|s| - 1], le), s[|s| - 1], le);
    }
  }

  lemma SameElements<T>(a: seq<T>, b: seq<T>)
    requires multiset(a) == multiset(b)
    ensures |a| == |b| && forall x :: x in a <==> x in b
    ensures Distinct(a) ==> Distinct(b)
  {
    assert |multiset(a)| == |multiset(b)|;
    forall x
      ensures x in a <==> x in b
    {
      assert x in a <==> x in multiset(a);
      assert x in b <==> x in multiset(b);
    }
    if Distinct(a) {
      forall x | x in b
        ensures multiset(b)[x] == 1
      {
        DistinctCount(a, x);
      }
      CountDistinct(b);
    }
  }

  lemma RemoveAt<T>(b: seq<T>, i: nat)
    requires i < |b|
    ensures multiset(b[..i] + b[i + 1..]) == multiset(b) - multiset{b[i]}
  {
    assert b == b[..i] + [b[i]] + b[i + 1..];
  }

  lemma {:induction false} DistinctCount<T>(a: seq<T>, x: T)
    requires Distinct(a)
    ensures multiset(a)[x] <= 1
  {
    if a != [] {
      var n := |a| - 1;
      DistinctCount(a[..n], x);
      assert a == a[..n] + [a[n]];
    }
  }

  lemma {:induction false} CountDistinct<T>(b: seq<T>)
    requires forall x | x in b :: multiset(b)[x] == 1
    ensures Distinct(b)
  {
    forall i, j | 0 <= i < j < |b|
      ensures b[i] != b[j]
    {
      assert b == b[..j] + [b[j]] + b[j + 1..];
      assert b[i] in b[..j];
      assert multiset(b)[b[j]] == multiset(b[..j])[b[j]] + 1 + multiset(b[j + 1..])[b[j]];
    }
  }

  /** `before(x, y)` holds of elements that must keep their relative order when their keys tie. */
  ghost predicate SortedStably<T>(s: seq<T>, le: (T, T) -> bool, before: (T, T) -> bool) {
    forall i, j | 0 <= i < j < |s| :: le(s[i], s[j]) && (le(s[j], s[i]) ==> before(s[i], s[j]))
  }

  lemma {:induction false} InsertSortsStably<T(!new)>(s: seq<T>, x: T, le: (T, T) -> bool, before: (T, T) -> bool)
    requires TotalPreorder(le) && SortedStably(s, le, before)
    requires forall y | y in s :: before(y, x)
    ensures SortedStably(InsertLast(s, x, le), le, before)
  {
    if s != [] && !le(s[|s| - 1], x) {
      var init, last := s[..|s| - 1], s[|s| - 1];
      InsertSortsStably(init, x, le, before);
      InsertPermutes(init, x, le);
      var r := InsertLast(init, x, le);
      forall i | 0 <= i < |r|
        ensures le(r[i], last) && (le(last, r[i]) ==> before(r[i], last))
      {
        assert r[i] in multiset(r);
        assert r[i] == x || r[i] in init;
      }
    }
  }

  /** Sorting keeps a relation that holds between earlier and later elements of the input on ties. */
  lemma {:induction false} SortIsStable<T(!new)>(s: seq<T>, le: (T, T) -> bool, before: (T, T) -> bool)
    requires TotalPreorder(le)
    requires forall i, j | 0 <= i < j < |s| :: before(s[i], s[j])
    ensures SortedStably(StableSort(s, le), le, before)
  {
    if s != [] {
      var n := |s| - 1;
      SortIsStable(s[..n], le, before);
      SortPermutes(s[..n], le);
      SameElements(StableSort(s[..n], le), s[..n]);
      InsertSortsStably(StableSort(s[..n], le), s[n], le, before);
    }
  }

  lemma SortSorts<T(!new)>(s: seq<T>, le: (T, T) -> bool)
    requires TotalPreorder(le)
    ensures Sorted(StableSort(s, le), le)
  {
    SortIsStable(s, le, (x, y) => true);
  }

  lemma HeadIsLeast<T(!new)>(a: seq<T>, x: T, le: (T, T) -> bool)
    requires TotalPreorder(le) && Sorted(a, le) && x in a
    ensures le(a[0], x)
  {
    var i :| 0 <= i < |a| && a[i] == x;
    assert le(a[0], a[0]);
  }

  /** Elements that tie are equal. */
  ghost predicate TiesEqual<T(!new)>(a: seq<T>, le: (T, T) -> bool) {
    forall x, y | x in a && y in a && le(x, y) && le(y, x) :: x == y
  }

  lemma HeadsMeet<T(!new)>(a: seq<T>, b: seq<T>, le: (T, T) -> bool)
    requires TotalPreorder(le) && Sorted(a, le) && Sorted(b, le) && a != [] && b != []
    requires forall x :: x in a <==> x in b
    requires TiesEqual(a, le)
    ensures a[0] == b[0]
  {
    HeadIsLeast(a, b[0], le);
    HeadIsLeast(b, a[0], le);
  }

  /** Two sorted arrangements of the same elements agree when tied elements are equal. */
  lemma {:induction false} SortedUnique<T(!new)>(a: seq<T>, b: seq<T>, le: (T, T) -> bool)
    requires TotalPreorder(le) && Sorted(a, le) && Sorted(b, le) && multiset(a) == multiset(b)
    requires TiesEqual(a, le)
    ensures a == b
  {
    SameElements(a, b);
    if a != [] {
      HeadsMeet(a, b, le);
      TailElements(a);
      TailElements(b);
      SortedUnique(a[1..], b[1..], le);
      assert a == [a[0]] + a[1..] && b == [b[0]] + b[1..];
    }
  }

  lemma TailElements<T>(a: seq<T>)
    requires a != []
    ensures multiset(a[1..]) == multiset(a) - multiset{a[0]}
    ensures forall x | x in a[1..] :: x in a
  {
    assert a == [a[0]] + a[1..];
  }
}
