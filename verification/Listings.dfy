/** A finite set laid out in increasing order. */
module Listings {
  import opened Ordering

  ghost predicate IsLeast(s: set<string>, m: string) {
    m in s && forall x | x in s :: LexLe(m, x)
  }

  lemma {:induction false} LeastExists(s: set<string>) returns (m: string)
    requires s != {}
    ensures IsLeast(s, m)
  {
    var x :| x in s;
    if s == {x} {
      m := x;
      LexTotal(x, x);
    } else {
      var y := LeastExists(s - {x});
      LexTotal(x, y);
      LexTotal(x, x);
      m := if LexLe(x, y) then x else y;
      forall z | z in s
        ensures LexLe(m, z)
      {
        if z != x && LexLe(x, y) {
          LexTransitive(x, y, z);
        }
      }
    }
  }

  /** `sorted(s)`. */
  ghost function Listing(s: set<string>): (names: seq<string>)
    ensures forall x :: x in names <==> x in s
    ensures Distinct(names)
  {
    if s == {} then []
    else
      assert exists m :: IsLeast(s, m) by {
        var m := LeastExists(s);
      }
      var m :| IsLeast(s, m);
      [m] + Listing(s - {m})
  }

  /** The listing is the only arrangement of the set that is sorted and free of repetition. */
  lemma {:induction false} ListingUnique(s: set<string>, names: seq<string>)
    requires Distinct(names) && Sorted(names, LexLe) && forall x :: x in names <==> x in s
    ensures names == Listing(s)
  {
    assert names != [] ==> names[0] in s;
    if s != {} {
      var m := Listing(s)[0];
      assert m in names;
      assert IsLeast(s, m);
      LexTotal(names[0], names[0]);
      assert LexLe(names[0], m);
      LexAntisymmetric(m, names[0]);
      forall x
        ensures x in names[1..] <==> x in s - {m}
      {
        assert names == [names[0]] + names[1..];
      }
      ListingUnique(s - {m}, names[1..]);
      assert names == [m] + names[1..];
    }
  }

  lemma LexIsPreorder()
    ensures TotalPreorder(LexLe)
  {
    forall x, y {
      LexTotal(x, y);
    }
    forall x, y, z | LexLe(x, y) && LexLe(y, z) {
      LexTransitive(x, y, z);
    }
  }

  lemma {:induction false} ListingSorted(s: set<string>)
    ensures Sorted(Listing(s), LexLe)
  {
    if s != {} {
      var m := Listing(s)[0];
      assert IsLeast(s, m);
      ListingSorted(s - {m});
    }
  }

  method SortedNames(s: set<string>) returns (names: seq<string>)
    ensures names == Listing(s)
  {
    names := [];
    var todo := s;
    while todo != {}
      invariant todo <= s && Distinct(names)
      invariant forall x :: x in names <==> x in s - todo
    {
      var x :| x in todo;
      assert x !in names;
      names := names + [x];
      todo := todo - {x};
    }
    LexIsPreorder();
    SortSorts(names, LexLe);
    SortPermutes(names, LexLe);
    SameElements(names, StableSort(names, LexLe));
    names := StableSort(names, LexLe);
    ListingUnique(s, names);
  }
}
