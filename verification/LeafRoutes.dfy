/** Registering a leaf doc in routes.yaml (distill.py), and that the router then offers it (route.py). */
module LeafRoutes {
  import opened Positions
  import opened Router

  const DEFAULT_PRIORITY := 50

  /** `route_entry_for`: one entry for each path glob of the item. */
  function EntriesFor(globs: seq<string>, leaf: string): seq<Route> {
    seq(|globs|, i requires 0 <= i < |globs| => Route(globs[i], [leaf], DEFAULT_PRIORITY))
  }

  /** A route with this glob already injects the entry's doc. */
  predicate Registered(routes: seq<Route>, entry: Route)
    requires entry.inject != []
  {
    exists i | 0 <= i < |routes| :: routes[i].glob == entry.glob && entry.inject[0] in routes[i].inject
  }

  predicate Entries(entries: seq<Route>) {
    forall i | 0 <= i < |entries| :: entries[i].inject != []
  }

  function AddOne(routes: seq<Route>, entry: Route): seq<Route>
    requires entry.inject != []
  {
    if Registered(routes, entry) then routes else routes + [entry]
  }

  function Added(routes: seq<Route>, entries: seq<Route>): seq<Route>
    requires Entries(entries)
  {
    if entries == [] then routes else AddOne(Added(routes, entries[..|entries| - 1]), entries[|entries| - 1])
  }

  /** `_add_route`, on the routes of the file. */
  method AddRoute(routes0: seq<Route>, entries: seq<Route>) returns (routes: seq<Route>)
    requires Entries(entries)
    ensures routes == Added(routes0, entries)
  {
    routes := routes0;
    for i := 0 to |entries|
      invariant routes == Added(routes0, entries[..i])
    {
      assert entries[..i + 1][..i] == entries[..i];
      if !Registered(routes, entries[i]) {
        routes := routes + [entries[i]];
      }
    }
    assert entries[..|entries|] == entries;
  }

  lemma RegisteredLater(routes: seq<Route>, more: seq<Route>, entry: Route)
    requires entry.inject != [] && routes <= more && Registered(routes, entry)
    ensures Registered(more, entry)
  {
    var i :| 0 <= i < |routes| && routes[i].glob == entry.glob && entry.inject[0] in routes[i].inject;
    assert more[i] == routes[i];
  }

  lemma RegistersOne(routes: seq<Route>, entry: Route)
    requires entry.inject != []
    ensures Registered(AddOne(routes, entry), entry) && routes <= AddOne(routes, entry)
  {
    var more := routes + [entry];
    assert more[|routes|] == entry;
  }

  /** The routes that were there stay in place, and every entry is registered. */
  lemma {:induction false} AddKeepsAndRegisters(routes: seq<Route>, entries: seq<Route>)
    requires Entries(entries)
    ensures routes <= Added(routes, entries)
    ensures forall i | 0 <= i < |entries| :: Registered(Added(routes, entries), entries[i])
  {
    if entries != [] {
      var n := |entries| - 1;
      var init := Added(routes, entries[..n]);
      AddKeepsAndRegisters(routes, entries[..n]);
      RegistersOne(init, entries[n]);
      forall i | 0 <= i <= n
        ensures Registered(Added(routes, entries), entries[i])
      {
        if i < n {
          assert entries[..n][i] == entries[i];
          RegisteredLater(init, Added(routes, entries), entries[i]);
        }
      }
    }
  }

  /** Nothing else is added: what is new is an entry for which no route injected its doc under its glob before. */
  lemma {:induction false} AddsOnlyEntries(routes: seq<Route>, entries: seq<Route>, k: nat)
    requires Entries(entries) && |routes| <= k < |Added(routes, entries)|
    ensures var route := Added(routes, entries)[k];
            && route in entries
            && forall i | 0 <= i < |routes| :: routes[i].glob != route.glob || route.inject[0] !in routes[i].inject
  {
    var n := |entries| - 1;
    if entries != [] {
      var init := Added(routes, entries[..n]);
      AddKeepsAndRegisters(routes, entries[..n]);
      assert entries == entries[..n] + [entries[n]];
      if k < |init| {
        AddsOnlyEntries(routes, entries[..n], k);
      } else {
        assert forall i | 0 <= i < |routes| :: init[i] == routes[i];
      }
    }
  }

  lemma {:induction false} AddNothing(routes: seq<Route>, entries: seq<Route>)
    requires Entries(entries) && forall i | 0 <= i < |entries| :: Registered(routes, entries[i])
    ensures Added(routes, entries) == routes
  {
    if entries != [] {
      AddNothing(routes, entries[..|entries| - 1]);
    }
  }

  /** Adding the same entries again changes nothing. */
  lemma AddTwice(routes: seq<Route>, entries: seq<Route>)
    requires Entries(entries)
    ensures Added(Added(routes, entries), entries) == Added(routes, entries)
  {
    AddKeepsAndRegisters(routes, entries);
    AddNothing(Added(routes, entries), entries);
  }

  // ---- The router offers what was registered ------------------------------------------------

  /** `load_routes` passes over entries without a glob or docs. */
  function Loaded(routes: seq<Route>): seq<Route> {
    if routes == [] then []
    else
      var last := routes[|routes| - 1];
      Loaded(routes[..|routes| - 1]) + if last.glob == "" || last.inject == [] then [] else [last]
  }

  lemma {:induction false} LoadedExact(routes: seq<Route>, route: Route)
    ensures route in Loaded(routes) <==> route in routes && route.glob != "" && route.inject != []
  {
    if routes != [] {
      var n := |routes| - 1;
      LoadedExact(routes[..n], route);
      assert routes == routes[..n] + [routes[n]];
    }
  }

  /** What is loaded are the entries with a glob and docs, in the order of the file. */
  lemma {:induction false} LoadedPicked(routes: seq<Route>)
    ensures Picks(routes, Loaded(routes), (i: nat) => i < |routes| && routes[i].glob != "" && routes[i].inject != [])
  {
    if routes == [] {
      assert PicksAt(routes, [], []);
    } else {
      var n := |routes| - 1;
      var init := routes[..n];
      LoadedPicked(init);
      assert routes == init + [routes[n]];
      var usable := (i: nat) => i < |routes| && routes[i].glob != "" && routes[i].inject != [];
      PicksSame(init, Loaded(init), (i: nat) => i < |init| && init[i].glob != "" && init[i].inject != [], usable);
      PickOne(init, routes[n], Loaded(init), usable);
    }
  }

  /** Every selection for a path that a registered glob matches lists the leaf doc registered for it. */
  lemma RegisteredIsRouted(routes: seq<Route>, glob: string, leaf: string, target: string, docs: seq<string>)
    requires glob != "" && Hits(Route(glob, [leaf], DEFAULT_PRIORITY), target)
    requires Registered(routes, Route(glob, [leaf], DEFAULT_PRIORITY))
    requires IsRanking(Loaded(routes), target, docs)
    ensures leaf in docs
  {
    var i :| 0 <= i < |routes| && routes[i].glob == glob && leaf in routes[i].inject;
    var route, loaded := routes[i], Loaded(routes);
    LoadedExact(routes, route);
    var r: nat :| r < |loaded| && loaded[r] == route;
    var j: nat :| j < |route.inject| && route.inject[j] == leaf;
    assert Proposes(loaded, target, leaf, r, j);
  }

  /** After a promotion every selection for a path that one of the item's globs matches lists its leaf doc. */
  lemma PromotedIsRouted(routes: seq<Route>, globs: seq<string>, leaf: string, g: nat, target: string,
                         docs: seq<string>)
    requires g < |globs| && globs[g] != "" && Hits(Route(globs[g], [leaf], DEFAULT_PRIORITY), target)
    requires IsRanking(Loaded(Added(routes, EntriesFor(globs, leaf))), target, docs)
    ensures leaf in docs
  {
    var entries := EntriesFor(globs, leaf);
    var after := Added(routes, entries);
    AddKeepsAndRegisters(routes, entries);
    assert Registered(after, entries[g]);
    RegisteredIsRouted(after, globs[g], leaf, target, docs);
  }
}
