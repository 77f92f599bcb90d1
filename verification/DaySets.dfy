/** Lists and sets of day numbers: sorting, listing, counting. */
module DaySets {
  import opened Ordering
  import Seqs

  function SortDays(days: seq<int>): seq<int> {
    StableSort(days, (a, b) => a <= b)
  }

  /** How many of the days are strictly later than `day`. */
  function CountLater(days: seq<int>, day: int): nat {
    if days == [] then 0
    else CountLater(days[..|days| - 1], day) + if days[|days| - 1] > day then 1 else 0
  }

  lemma {:induction false} CountLaterRemove(days: seq<int>, i: nat, day: int)
    requires i < |days|
    ensures CountLater(days, day) ==
            CountLater(days[..i] + days[i + 1..], day) + if days[i] > day then 1 else 0
  {
    var n := |days| - 1;
    if i == n {
      assert days[..i] + days[i + 1..] == days[..n];
    } else {
      var rest := days[..i] + days[i + 1..];
      assert rest[..|rest| - 1] == days[..n][..i] + days[..n][i + 1..];
      assert rest[|rest| - 1] == days[n];
      CountLaterRemove(days[..n], i, day);
    }
  }

  lemma {:induction false} CountLaterPermutes(a: seq<int>, b: seq<int>, day: int)
    requires multiset(a) == multiset(b)
    ensures CountLater(a, day) == CountLater(b, day)
  {
    SameElements(a, b);
    if a != [] {
      var n := |a| - 1;
      assert a == a[..n] + [a[n]];
      assert a[n] in b;
      var i :| 0 <= i < |b| && b[i] == a[n];
      CountLaterRemove(b, i, day);
      RemoveAt(b, i);
      CountLaterPermutes(a[..n], b[..i] + b[i + 1..], day);
    }
  }

  /** In a sorted list at least `m` days are later than `day` exactly when the `m`-th from the end is. */
  lemma {:induction false} CountLaterSorted(days: seq<int>, day: int, m: nat)
    requires (forall i, j | 0 <= i < j < |days| :: days[i] <= days[j]) && 1 <= m <= |days|
    ensures CountLater(days, day) >= m <==> days[|days| - m] > day
  {
    var n := |days| - 1;
    if m == 1 {
      if days[n] <= day {
        NoneLater(days, day);
      }
    } else {
      CountLaterSorted(days[..n], day, m - 1);
    }
  }

  lemma {:induction false} NoneLater(days: seq<int>, day: int)
    requires forall i | 0 <= i < |days| :: days[i] <= day
    ensures CountLater(days, day) == 0
  {
    if days != [] {
      NoneLater(days[..|days| - 1], day);
    }
  }

  /** Of the sorted days the `m`-th from the end is later than `day` exactly when at least `m` of all days are. */
  lemma {:induction false} SortedDaysCount(days: seq<int>, day: int, m: nat)
    requires 1 <= m <= |days|
    ensures |SortDays(days)| == |days|
    ensures CountLater(days, day) >= m <==> SortDays(days)[|days| - m] > day
  {
    var le := (a: int, b: int) => a <= b;
    SortSorts(days, le);
    SortPermutes(days, le);
    SortLength(days, le);
    CountLaterPermutes(SortDays(days), days, day);
    CountLaterSorted(SortDays(days), day, m);
  }

  function Later(days: set<int>, day: int): set<int> {
    set d | d in days && d > day
  }

  ghost predicate Lists(sorted: seq<int>, days: set<int>) {
    && (forall d :: d in sorted <==> d in days)
    && forall i, j | 0 <= i < j < |sorted| :: sorted[i] < sorted[j]
  }

  lemma ListsInit(sorted: seq<int>, days: set<int>)
    requires sorted != [] && Lists(sorted, days)
    ensures var last := sorted[|sorted| - 1]; last in days && Lists(sorted[..|sorted| - 1], days - {last})
  {
    var n := |sorted| - 1;
    assert sorted == sorted[..n] + [sorted[n]];
    assert sorted[n] in sorted;
  }

  lemma LaterWithout(days: set<int>, last: int, day: int)
    requires last in days
    ensures |Later(days, day)| == |Later(days - {last}, day)| + if last > day then 1 else 0
  {
    var rest := Later(days - {last}, day);
    if last > day {
      assert Later(days, day) == rest + {last} && last !in rest;
    } else {
      assert Later(days, day) == rest;
    }
  }

  lemma {:induction false} CountLaterListed(sorted: seq<int>, days: set<int>, day: int)
    requires Lists(sorted, days)
    ensures |sorted| == |days| && CountLater(sorted, day) == |Later(days, day)|
  {
    if sorted == [] {
      forall d
        ensures d !in days
      {
        assert d !in sorted;
      }
      assert days == {} && Later(days, day) == {};
    } else {
      var n := |sorted| - 1;
      ListsInit(sorted, days);
      LaterWithout(days, sorted[n], day);
      CountLaterListed(sorted[..n], days - {sorted[n]}, day);
      assert days == days - {sorted[n]} + {sorted[n]};
    }
  }

  ghost function SortedDays(days: set<int>): (sorted: seq<int>)
    ensures forall d :: d in sorted <==> d in days
    ensures forall i, j | 0 <= i < j < |sorted| :: sorted[i] < sorted[j]
  {
    if days == {} then []
    else
      assert exists m :: LeastDay(days, m) by {
        var m := LeastDayExists(days);
      }
      var m :| LeastDay(days, m);
      [m] + SortedDays(days - {m})
  }

  predicate LeastDay(days: set<int>, m: int) {
    m in days && forall d | d in days :: m <= d
  }

  lemma {:induction false} LeastDayExists(days: set<int>) returns (m: int)
    requires days != {}
    ensures LeastDay(days, m)
  {
    m := Seqs.AnElement(days);
    var rest := days - {m};
    assert forall d | d in days :: d == m || d in rest;
    if rest != {} {
      var n := LeastDayExists(rest);
      m := if m <= n then m else n;
    }
  }

  lemma {:induction false} SortedDaysUnique(days: set<int>, sorted: seq<int>)
    requires forall d :: d in sorted <==> d in days
    requires forall i, j | 0 <= i < j < |sorted| :: sorted[i] < sorted[j]
    ensures sorted == SortedDays(days)
  {
    var other := SortedDays(days);
    assert sorted != [] ==> sorted[0] in days;
    if days != {} {
      var m := other[0];
      assert m in sorted && LeastDay(days, m) && sorted[0] == m;
      forall d
        ensures d in sorted[1..] <==> d in days - {m}
      {
        assert sorted == [m] + sorted[1..];
      }
      SortedDaysUnique(days - {m}, sorted[1..]);
      assert sorted == [m] + sorted[1..];
    }
  }

  /** `sorted(set(...))`. */
  method SortedSet(days: set<int>) returns (sorted: seq<int>)
    ensures sorted == SortedDays(days)
  {
    sorted := [];
    var todo := days;
    while todo != {}
      invariant todo <= days && Distinct(sorted)
      invariant forall d :: d in sorted <==> d in days - todo
    {
      var d := Seqs.AnyOf(todo);
      assert d !in sorted;
      sorted := sorted + [d];
      todo := todo - {d};
    }
    var le := (a: int, b: int) => a <= b;
    SortSorts(sorted, le);
    SortPermutes(sorted, le);
    SameElements(sorted, SortDays(sorted));
    sorted := SortDays(sorted);
    SortedDaysUnique(days, sorted);
  }
}
