/** What a list keeps of another one, by position. */
module Positions {
  /** `picked` are the members of `s` at the positions `at`, in order. */
  predicate PicksAt<T(==)>(s: seq<T>, picked: seq<T>, at: seq<nat>) {
    && |at| == |picked| && (forall m, n | 0 <= m < n < |at| :: at[m] < at[n])
    && forall m | 0 <= m < |at| :: at[m] < |s| && s[at[m]] == picked[m]
  }

  /** `picked` are exactly the members of `s` at the chosen positions, in order. */
  ghost predicate Picks<T>(s: seq<T>, picked: seq<T>, chosen: nat -> bool) {
    exists at: seq<nat> :: PicksAt(s, picked, at) && forall i: nat | i < |s| :: i in at <==> chosen(i)
  }

  lemma PickOne<T>(init: seq<T>, x: T, picked: seq<T>, chosen: nat -> bool)
    requires Picks(init, picked, chosen)
    ensures Picks(init + [x], picked + if chosen(|init|) then [x] else [], chosen)
  {
    var at: seq<nat> :| PicksAt(init, picked, at) && forall i: nat | i < |init| :: i in at <==> chosen(i);
    var more: seq<nat> := at + if chosen(|init|) then [|init|] else [];
    forall i: nat | i < |init + [x]|
      ensures i in more <==> chosen(i)
    {
      assert i in more <==> i in at || (i == |init| && chosen(|init|));
    }
    assert PicksAt(init + [x], picked + if chosen(|init|) then [x] else [], more);
  }

  lemma PicksSame<T>(s: seq<T>, picked: seq<T>, a: nat -> bool, b: nat -> bool)
    requires Picks(s, picked, a) && forall i: nat | i < |s| :: a(i) == b(i)
    ensures Picks(s, picked, b)
  {
  }

  predicate Shifted(at: seq<nat>, later: seq<nat>) {
    |later| == |at| && forall m | 0 <= m < |at| :: later[m] == at[m] + 1
  }

  lemma ShiftedIn(at: seq<nat>, later: seq<nat>, i: nat)
    requires Shifted(at, later)
    ensures i + 1 in later <==> i in at
    ensures 0 !in later
  {
    if i in at {
      var m :| 0 <= m < |at| && at[m] == i;
      assert later[m] == i + 1;
    }
  }

  lemma PicksLater<T>(s: seq<T>, picked: seq<T>, at: seq<nat>, later: seq<nat>)
    requires s != [] && PicksAt(s[1..], picked, at) && Shifted(at, later)
    ensures PicksAt(s, picked, later)
  {
  }

  lemma PicksFirst<T>(s: seq<T>, picked: seq<T>, later: seq<nat>)
    requires s != [] && PicksAt(s, picked, later) && 0 !in later
    ensures PicksAt(s, [s[0]] + picked, [0] + later)
  {
    assert forall m | 0 <= m < |later| :: later[m] in later;
  }

  lemma Chosen<T>(s: seq<T>, picked: seq<T>, at: seq<nat>, chosen: nat -> bool)
    requires PicksAt(s, picked, at) && forall i: nat | i < |s| :: i in at <==> chosen(i)
    ensures Picks(s, picked, chosen)
  {
  }

  lemma PickFirst<T>(s: seq<T>, picked: seq<T>, rest: nat -> bool, chosen: nat -> bool)
    requires s != [] && Picks(s[1..], picked, rest)
    requires forall i: nat | 0 < i < |s| :: chosen(i) == rest(i - 1)
    ensures Picks(s, (if chosen(0) then [s[0]] else []) + picked, chosen)
  {
    var at: seq<nat> :| PicksAt(s[1..], picked, at) && forall i: nat | i < |s[1..]| :: i in at <==> rest(i);
    var later := Later(at);
    PicksLater(s, picked, at, later);
    forall i: nat | 0 < i < |s|
      ensures i in later <==> chosen(i)
    {
      ShiftedIn(at, later, i - 1);
      assert i - 1 < |s[1..]|;
    }
    ShiftedIn(at, later, 0);
    if chosen(0) {
      PicksFirst(s, picked, later);
      Chosen(s, [s[0]] + picked, [0] + later, chosen);
    } else {
      Chosen(s, picked, later, chosen);
      assert [] + picked == picked;
    }
  }

  lemma Later(at: seq<nat>) returns (later: seq<nat>)
    ensures Shifted(at, later)
  {
    later := seq(|at|, m requires 0 <= m < |at| => at[m] + 1);
  }
}
