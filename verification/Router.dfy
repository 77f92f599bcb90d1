/** Document selection in the router (route.py): which leaf docs an edit of one path injects. */
module Router {
  import opened Ordering
  import opened Regex
  import Glob
  import Seqs

  datatype Route = Route(glob: string, inject: seq<string>, priority: int)

  /** One doc proposed by one matching route. */
  datatype Offer = Offer(doc: string, priority: int)

  function StripDotSlash(target: string): string {
    if "./" <= target then target[2..] else target
  }

  predicate Hits(route: Route, target: string) {
    Matches(Glob.Compile(route.glob), target)
  }

  function OffersOf(route: Route): seq<Offer> {
    seq(|route.inject|, j requires 0 <= j < |route.inject| => Offer(route.inject[j], route.priority))
  }

  /** Everything the matching routes propose, in reading order. */
  function Offers(routes: seq<Route>, target: string): seq<Offer> {
    if routes == [] then []
    else
      var last := routes[|routes| - 1];
      Offers(routes[..|routes| - 1], target) + if Hits(last, target) then OffersOf(last) else []
  }

  // ---- What a selection is -----------------------------------------------------------

  predicate Offered(offers: seq<Offer>, doc: string) {
    exists i | 0 <= i < |offers| :: offers[i].doc == doc
  }

  /** `p` is the smallest priority any offer gives `doc`. */
  predicate IsRank(offers: seq<Offer>, doc: string, p: int) {
    && (exists i | 0 <= i < |offers| :: offers[i] == Offer(doc, p))
    && (forall i | 0 <= i < |offers| && offers[i].doc == doc :: p <= offers[i].priority)
  }

  /** `i` is where `doc` is first seen. */
  predicate IsFirst(offers: seq<Offer>, doc: string, i: nat) {
    i < |offers| && offers[i].doc == doc && forall j | 0 <= j < i :: offers[j].doc != doc
  }

  /** `d` comes before `e`: a smaller rank, or the same rank and seen first. */
  ghost predicate Precedes(offers: seq<Offer>, d: string, e: string) {
    exists p, q, i, j ::
      && IsRank(offers, d, p) && IsRank(offers, e, q)
      && IsFirst(offers, d, i) && IsFirst(offers, e, j)
      && (p < q || (p == q && i < j))
  }

  /** Each offered doc exactly once, by smallest priority, ties in first-sight order. */
  ghost predicate IsSelection(offers: seq<Offer>, docs: seq<string>) {
    && Distinct(docs)
    && (forall d :: d in docs <==> Offered(offers, d))
    && (forall i, j | 0 <= i < j < |docs| :: Precedes(offers, docs[i], docs[j]))
  }

  // ---- The loop's bookkeeping --------------------------------------------------------

  /** `best` and `order` after reading `offers`. */
  ghost predicate Tracks(offers: seq<Offer>, best: map<string, int>, order: seq<string>) {
    && Distinct(order)
    && (forall d :: d in order <==> d in best)
    && (forall d :: d in best <==> Offered(offers, d))
    && (forall d | d in best :: IsRank(offers, d, best[d]))
    && (forall i, j | 0 <= i < j < |order| :: SeenBefore(offers, order[i], order[j]))
  }

  ghost predicate SeenBefore(offers: seq<Offer>, d: string, e: string) {
    exists i, j :: IsFirst(offers, d, i) && IsFirst(offers, e, j) && i < j
  }

  lemma FirstGrows(offers: seq<Offer>, o: Offer, d: string, i: nat)
    requires IsFirst(offers, d, i)
    ensures IsFirst(offers + [o], d, i)
  {
  }

  lemma RankGrows(offers: seq<Offer>, o: Offer, d: string, p: int)
    requires IsRank(offers, d, p)
    ensures IsRank(offers + [o], d, if d == o.doc && o.priority < p then o.priority else p)
  {
    var all := offers + [o];
    var i :| 0 <= i < |offers| && offers[i] == Offer(d, p);
    assert all[i] == Offer(d, p) && all[|offers|] == o;
  }

  lemma {:induction false} SomeFirst(offers: seq<Offer>, d: string) returns (i: nat)
    requires Offered(offers, d)
    ensures IsFirst(offers, d, i)
  {
    i := 0;
    while offers[i].doc != d
      invariant i < |offers| && (forall j | 0 <= j < i :: offers[j].doc != d)
      invariant exists j | i <= j < |offers| :: offers[j].doc == d
      decreases |offers| - i
    {
      i := i + 1;
    }
  }

  lemma TracksKnown(offers: seq<Offer>, best: map<string, int>, order: seq<string>, o: Offer)
    requires Tracks(offers, best, order) && o.doc in best
    ensures Tracks(offers + [o], if o.priority < best[o.doc] then best[o.doc := o.priority] else best, order)
  {
    var all := offers + [o];
    forall d
      ensures Offered(all, d) <==> Offered(offers, d)
    {
      if i :| 0 <= i < |offers| && offers[i].doc == d {
        assert all[i].doc == d;
      }
    }
    forall d | d in best {
      RankGrows(offers, o, d, best[d]);
    }
    SeenGrows(offers, order, o);
  }

  lemma SeenGrows(offers: seq<Offer>, order: seq<string>, o: Offer)
    requires forall i, j | 0 <= i < j < |order| :: SeenBefore(offers, order[i], order[j])
    ensures forall i, j | 0 <= i < j < |order| :: SeenBefore(offers + [o], order[i], order[j])
  {
    forall i, j | 0 <= i < j < |order|
      ensures SeenBefore(offers + [o], order[i], order[j])
    {
      var k, m :| IsFirst(offers, order[i], k) && IsFirst(offers, order[j], m) && k < m;
      FirstGrows(offers, o, order[i], k);
      FirstGrows(offers, o, order[j], m);
    }
  }

  lemma TracksNew(offers: seq<Offer>, best: map<string, int>, order: seq<string>, o: Offer)
    requires Tracks(offers, best, order) && o.doc !in best
    ensures Tracks(offers + [o], best[o.doc := o.priority], order + [o.doc])
  {
    var all, order' := offers + [o], order + [o.doc];
    assert all[|offers|] == o;
    forall d
      ensures Offered(all, d) <==> d in best || d == o.doc
    {
      if i :| 0 <= i < |offers| && offers[i].doc == d {
        assert all[i].doc == d;
      }
    }
    forall d | d in best {
      RankGrows(offers, o, d, best[d]);
    }
    assert IsRank(all, o.doc, o.priority);
    assert IsFirst(all, o.doc, |offers|);
    SeenGrows(offers, order, o);
    forall i | 0 <= i < |order|
      ensures SeenBefore(all, order[i], o.doc)
    {
      assert order[i] in order;
      var k := SomeFirst(offers, order[i]);
      FirstGrows(offers, o, order[i], k);
    }
  }

  function RankIn(best: map<string, int>, doc: string): int {
    if doc in best then best[doc] else 0
  }

  lemma SortedIsSelection(offers: seq<Offer>, best: map<string, int>, order: seq<string>)
    requires Tracks(offers, best, order)
    ensures IsSelection(offers, StableSort(order, (d, e) => RankIn(best, d) <= RankIn(best, e)))
  {
    var le := (d, e) => RankIn(best, d) <= RankIn(best, e);
    var before := (d, e) => SeenBefore(offers, d, e);
    SortIsStable(order, le, before);
    SortPermutes(order, le);
    var docs := StableSort(order, le);
    SameElements(order, docs);
    forall i, j | 0 <= i < j < |docs|
      ensures Precedes(offers, docs[i], docs[j])
    {
      var d, e := docs[i], docs[j];
      assert d in docs && e in docs;
      assert IsRank(offers, d, best[d]) && IsRank(offers, e, best[e]);
      assert le(d, e) && (le(e, d) ==> before(d, e));
      var k := SomeFirst(offers, d);
      var m := SomeFirst(offers, e);
      if le(e, d) {
        var k', m' :| IsFirst(offers, d, k') && IsFirst(offers, e, m') && k' < m';
        assert k == k' && m == m';
      }
    }
  }

  /** One doc that a route offers: its best rank so far, and its place when it is new. */
  method RankOffer(ghost seen: seq<Offer>, best0: map<string, int>, order0: seq<string>, o: Offer)
    returns (best: map<string, int>, order: seq<string>)
    requires Tracks(seen, best0, order0)
    ensures Tracks(seen + [o], best, order)
  {
    best, order := best0, order0;
    if o.doc !in best {
      TracksNew(seen, best, order, o);
      best := best[o.doc := o.priority];
      order := order + [o.doc];
    } else {
      TracksKnown(seen, best, order, o);
      if o.priority < best[o.doc] {
        best := best[o.doc := o.priority];
      }
    }
  }

  /** All docs of one matching route, which makes the offers `offers`. */
  method RankRoute(ghost seen: seq<Offer>, ghost offers: seq<Offer>, best0: map<string, int>, order0: seq<string>,
                   route: Route)
    returns (best: map<string, int>, order: seq<string>)
    requires Tracks(seen, best0, order0) && |offers| == |route.inject|
    requires forall j | 0 <= j < |offers| :: offers[j] == Offer(route.inject[j], route.priority)
    ensures Tracks(seen + offers, best, order)
  {
    best, order := best0, order0;
    Seqs.PrefixEnds(seen, offers);
    for j := 0 to |route.inject|
      invariant Tracks(seen + offers[..j], best, order)
    {
      Seqs.PrefixStep(seen, offers, j);
      best, order := RankOffer(seen + offers[..j], best, order, Offer(route.inject[j], route.priority));
    }
  }

  /** The docs that the matching routes offer, in their final order. */
  method RankDocs(target: string, routes: seq<Route>) returns (order: seq<string>)
    ensures IsSelection(Offers(routes, target), order)
  {
    var best: map<string, int> := map[];
    order := [];
    for i := 0 to |routes|
      invariant Tracks(Offers(routes[..i], target), best, order)
    {
      var route := routes[i];
      assert routes[..i + 1][..i] == routes[..i];
      if Hits(route, target) {
        best, order := RankRoute(Offers(routes[..i], target), OffersOf(route), best, order, route);
      } else {
        assert Offers(routes[..i + 1], target) == Offers(routes[..i], target);
      }
    }
    assert routes[..|routes|] == routes;
    SortedIsSelection(Offers(routes, target), best, order);
    order := StableSort(order, (d, e) => RankIn(best, d) <= RankIn(best, e));
  }

  // ---- An order leaves one arrangement ---------------------------------------------------

  ghost predicate Ordered(before: (string, string) -> bool, a: seq<string>) {
    Distinct(a) && forall i, k | 0 <= i < k < |a| :: before(a[i], a[k])
  }

  lemma {:induction false} OrderedUnique(before: (string, string) -> bool, a: seq<string>, b: seq<string>)
    requires Ordered(before, a) && Ordered(before, b) && forall d :: d in a <==> d in b
    requires forall d, e | before(d, e) :: !before(e, d)
    ensures a == b
  {
    assert a != [] ==> a[0] in b;
    assert b != [] ==> b[0] in a;
    if a != [] {
      var i :| 0 <= i < |b| && b[i] == a[0];
      var j :| 0 <= j < |a| && a[j] == b[0];
      assert a[0] == b[0];
      forall d
        ensures d in a[1..] <==> d in b[1..]
      {
        assert d in a <==> d == a[0] || d in a[1..];
        assert d in b <==> d == b[0] || d in b[1..];
      }
      OrderedUnique(before, a[1..], b[1..]);
      assert a == [a[0]] + a[1..] && b == [b[0]] + b[1..];
    }
  }

  // ---- A selection is fully determined by the offers ---------------------------------

  lemma PrecedesOneWay(offers: seq<Offer>, d: string, e: string)
    requires Precedes(offers, d, e)
    ensures !Precedes(offers, e, d)
  {
    var p, q, i, j :|
      && IsRank(offers, d, p) && IsRank(offers, e, q)
      && IsFirst(offers, d, i) && IsFirst(offers, e, j)
      && (p < q || (p == q && i < j));
    forall p' | IsRank(offers, d, p')
      ensures p' == p
    {
    }
    forall q' | IsRank(offers, e, q')
      ensures q' == q
    {
    }
  }

  lemma {:induction false} SelectionUnique(offers: seq<Offer>, a: seq<string>, b: seq<string>)
    requires IsSelection(offers, a) && IsSelection(offers, b)
    ensures a == b
  {
    var before := (d, e) => Precedes(offers, d, e);
    forall d, e | before(d, e)
      ensures !before(e, d)
    {
      PrecedesOneWay(offers, d, e);
    }
    OrderedUnique(before, a, b);
  }

  // ---- A selection told by the routes themselves ---------------------------------------

  /** Route `r` matches the path, and `doc` is its `j`-th doc. */
  predicate Proposes(routes: seq<Route>, target: string, doc: string, r: nat, j: nat) {
    && r < |routes| && Matches(Glob.Compile(routes[r].glob), target)
    && j < |routes[r].inject| && routes[r].inject[j] == doc
  }

  /** `p` is the smallest priority of the matching routes that have `doc`. */
  ghost predicate IsMinPriority(routes: seq<Route>, target: string, doc: string, p: int) {
    && (exists r: nat, j: nat :: Proposes(routes, target, doc, r, j) && routes[r].priority == p)
    && (forall r: nat, j: nat | Proposes(routes, target, doc, r, j) :: p <= routes[r].priority)
  }

  predicate ReadBefore(r: nat, j: nat, r': nat, j': nat) {
    r < r' || (r == r' && j < j')
  }

  /** Reading the routes in order, `doc` is first seen in route `r` at `j`. */
  ghost predicate IsFirstSight(routes: seq<Route>, target: string, doc: string, r: nat, j: nat) {
    && Proposes(routes, target, doc, r, j)
    && forall r': nat, j': nat | Proposes(routes, target, doc, r', j') :: !ReadBefore(r', j', r, j)
  }

  /** `d` comes before `e`: a smaller minimum priority, or the same one and seen first. */
  ghost predicate Outranks(routes: seq<Route>, target: string, d: string, e: string) {
    exists p, q, r, j, r', j' ::
      && IsMinPriority(routes, target, d, p) && IsMinPriority(routes, target, e, q)
      && IsFirstSight(routes, target, d, r, j) && IsFirstSight(routes, target, e, r', j')
      && (p < q || (p == q && ReadBefore(r, j, r', j')))
  }

  /** Exactly the docs of the matching routes, each once, best first. */
  ghost predicate IsRanking(routes: seq<Route>, target: string, docs: seq<string>) {
    && (forall i, k | 0 <= i < k < |docs| :: docs[i] != docs[k])
    && (forall d :: d in docs <==> exists r: nat, j: nat :: Proposes(routes, target, d, r, j))
    && (forall i, k | 0 <= i < k < |docs| :: Outranks(routes, target, docs[i], docs[k]))
  }

  /** Where the offers hold what route `r` proposes at `j`. */
  function Place(routes: seq<Route>, target: string, r: nat, j: nat): nat
    requires r < |routes|
  {
    |Offers(routes[..r], target)| + j
  }

  lemma {:induction false} OffersExtend(routes: seq<Route>, target: string, r: nat)
    requires r <= |routes|
    ensures Offers(routes[..r], target) <= Offers(routes, target)
  {
    var n := |routes| - 1;
    if r <= n {
      assert routes[..n][..r] == routes[..r];
      OffersExtend(routes[..n], target, r);
    } else {
      assert routes[..r] == routes;
    }
  }

  lemma OffersStep(routes: seq<Route>, target: string, r: nat)
    requires r < |routes|
    ensures Offers(routes[..r + 1], target) ==
            Offers(routes[..r], target) + if Hits(routes[r], target) then OffersOf(routes[r]) else []
  {
    assert routes[..r + 1][..r] == routes[..r];
  }

  lemma OfferAtPlace(routes: seq<Route>, target: string, doc: string, r: nat, j: nat)
    requires Proposes(routes, target, doc, r, j)
    ensures var i := Place(routes, target, r, j);
            i < |Offers(routes, target)| && Offers(routes, target)[i] == Offer(doc, routes[r].priority)
  {
    OffersStep(routes, target, r);
    OffersExtend(routes, target, r + 1);
    var before := Offers(routes[..r], target);
    assert (before + OffersOf(routes[r]))[|before| + j] == OffersOf(routes[r])[j];
  }

  lemma {:induction false} PlaceOfOffer(routes: seq<Route>, target: string, i: nat) returns (r: nat, j: nat)
    requires i < |Offers(routes, target)|
    ensures Proposes(routes, target, Offers(routes, target)[i].doc, r, j)
    ensures i == Place(routes, target, r, j) && Offers(routes, target)[i].priority == routes[r].priority
  {
    var n := |routes| - 1;
    var init := routes[..n];
    var before := Offers(init, target);
    if i < |before| {
      r, j := PlaceOfOffer(init, target, i);
      assert init[..r] == routes[..r];
    } else {
      r, j := n, i - |before|;
    }
  }

  lemma PlacesInOrder(routes: seq<Route>, target: string, d: string, r: nat, j: nat, e: string, r': nat, j': nat)
    requires Proposes(routes, target, d, r, j) && Proposes(routes, target, e, r', j')
    ensures ReadBefore(r, j, r', j') <==> Place(routes, target, r, j) < Place(routes, target, r', j')
  {
    if r < r' {
      PlaceInside(routes, target, d, r, j, r');
    } else if r' < r {
      PlaceInside(routes, target, e, r', j', r);
    }
  }

  lemma PlaceInside(routes: seq<Route>, target: string, d: string, r: nat, j: nat, later: nat)
    requires Proposes(routes, target, d, r, j) && r < later < |routes|
    ensures Place(routes, target, r, j) < |Offers(routes[..later], target)|
  {
    assert routes[..later][r] == routes[r] && routes[..later][..r] == routes[..r];
    OfferAtPlace(routes[..later], target, d, r, j);
  }

  lemma OfferedIsProposed(routes: seq<Route>, target: string, doc: string)
    ensures Offered(Offers(routes, target), doc) <==> exists r: nat, j: nat :: Proposes(routes, target, doc, r, j)
  {
    if i: nat :| i < |Offers(routes, target)| && Offers(routes, target)[i].doc == doc {
      var r, j := PlaceOfOffer(routes, target, i);
    }
    if r: nat, j: nat :| Proposes(routes, target, doc, r, j) {
      OfferAtPlace(routes, target, doc, r, j);
    }
  }

  lemma RankIsMinPriority(routes: seq<Route>, target: string, doc: string, p: int)
    requires IsRank(Offers(routes, target), doc, p)
    ensures IsMinPriority(routes, target, doc, p)
  {
    var i: nat :| i < |Offers(routes, target)| && Offers(routes, target)[i] == Offer(doc, p);
    var r, j := PlaceOfOffer(routes, target, i);
    forall r': nat, j': nat | Proposes(routes, target, doc, r', j')
      ensures p <= routes[r'].priority
    {
      OfferAtPlace(routes, target, doc, r', j');
    }
  }

  lemma FirstIsFirstSight(routes: seq<Route>, target: string, doc: string, i: nat) returns (r: nat, j: nat)
    requires IsFirst(Offers(routes, target), doc, i)
    ensures IsFirstSight(routes, target, doc, r, j) && i == Place(routes, target, r, j)
  {
    r, j := PlaceOfOffer(routes, target, i);
    forall r': nat, j': nat | Proposes(routes, target, doc, r', j')
      ensures !ReadBefore(r', j', r, j)
    {
      OfferAtPlace(routes, target, doc, r', j');
      PlacesInOrder(routes, target, doc, r', j', doc, r, j);
    }
  }

  lemma PrecedesIsOutranks(routes: seq<Route>, target: string, d: string, e: string)
    requires Precedes(Offers(routes, target), d, e)
    ensures Outranks(routes, target, d, e)
  {
    var offers := Offers(routes, target);
    var p, q, i, k :|
      && IsRank(offers, d, p) && IsRank(offers, e, q)
      && IsFirst(offers, d, i) && IsFirst(offers, e, k)
      && (p < q || (p == q && i < k));
    RankIsMinPriority(routes, target, d, p);
    RankIsMinPriority(routes, target, e, q);
    var r, j := FirstIsFirstSight(routes, target, d, i);
    var r', j' := FirstIsFirstSight(routes, target, e, k);
    PlacesInOrder(routes, target, d, r, j, e, r', j');
  }

  lemma SelectionIsRanking(routes: seq<Route>, target: string, docs: seq<string>)
    requires IsSelection(Offers(routes, target), docs)
    ensures IsRanking(routes, target, docs)
  {
    forall d
      ensures d in docs <==> exists r: nat, j: nat :: Proposes(routes, target, d, r, j)
    {
      OfferedIsProposed(routes, target, d);
    }
    forall i, k | 0 <= i < k < |docs|
      ensures Outranks(routes, target, docs[i], docs[k])
    {
      PrecedesIsOutranks(routes, target, docs[i], docs[k]);
    }
  }

  lemma OutranksOneWay(routes: seq<Route>, target: string, d: string, e: string)
    requires Outranks(routes, target, d, e)
    ensures !Outranks(routes, target, e, d)
  {
  }

  /** The ranking is unique. */
  lemma {:induction false} RankingUnique(routes: seq<Route>, target: string, a: seq<string>, b: seq<string>)
    requires IsRanking(routes, target, a) && IsRanking(routes, target, b)
    ensures a == b
  {
    var before := (d, e) => Outranks(routes, target, d, e);
    forall d, e | before(d, e)
      ensures !before(e, d)
    {
      OutranksOneWay(routes, target, d, e);
    }
    OrderedUnique(before, a, b);
  }

  /** `select_docs_split`. */
  method SelectDocsSplit(target: string, routes: seq<Route>, maxDocs: int)
    returns (kept: seq<string>, dropped: seq<string>)
    ensures var path := if "./" <= target then target[2..] else target;
            IsRanking(routes, path, kept + dropped) && IsSelection(Offers(routes, path), kept + dropped)
    ensures 0 < maxDocs < |kept + dropped| ==> |kept| == maxDocs
    ensures maxDocs <= 0 || |kept + dropped| <= maxDocs ==> dropped == []
  {
    var order := RankDocs(StripDotSlash(target), routes);
    if maxDocs > 0 && |order| > maxDocs {
      kept, dropped := order[..maxDocs], order[maxDocs..];
    } else {
      kept, dropped := order, [];
    }
    assert kept + dropped == order;
    SelectionIsRanking(routes, StripDotSlash(target), order);
  }

  /** `select_docs`: the kept docs only. */
  method SelectDocs(target: string, routes: seq<Route>, maxDocs: int) returns (kept: seq<string>)
    ensures var path := if "./" <= target then target[2..] else target;
            exists all :: IsRanking(routes, path, all) && kept == if 0 < maxDocs < |all| then all[..maxDocs] else all
  {
    var dropped;
    kept, dropped := SelectDocsSplit(target, routes, maxDocs);
    ghost var all := kept + dropped;
    assert kept == all[..|kept|];
    assert IsRanking(routes, StripDotSlash(target), all);
  }
}
