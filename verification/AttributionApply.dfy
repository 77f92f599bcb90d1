/** The two-phase consequence writer (attribution_apply.py). */
module AttributionApply {
  import opened Attribution
  import opened CiStatus
  import opened Knowledge
  import opened Listings
  import opened Ordering
  import opened Wrappers

  datatype SkipReason = ItemMissing | ItemNotCold | ItemAttributed | ItemFlipped | CiUnresolved

  datatype Skipped = Skipped(slug: string, reason: SkipReason)

  /** The store and the audit lists while a phase runs. */
  datatype Effect = Effect(store: Store, done: seq<Planned>, skipped: seq<Skipped>)

  // ---- Phase A: planned attributions, re-checked against the store as it is now --------

  function WriteOne(e: Effect, p: Planned): Effect {
    if p.slug !in e.store then e.(skipped := e.skipped + [Skipped(p.slug, ItemMissing)])
    else
      var item := e.store[p.slug];
      if item.tier != Cold then e.(skipped := e.skipped + [Skipped(p.slug, ItemNotCold)])
      else if RealSha(item.actedOn).Some? then e.(skipped := e.skipped + [Skipped(p.slug, ItemAttributed)])
      else
        var green := Literal(p.testsGreen);
        Effect(e.store[p.slug := item.(actedOn := Some(p.sha), testsGreen := green)],
               e.done + [p.(testsGreen := green)], e.skipped)
  }

  function WriteAll(store: Store, planned: seq<Planned>): Effect {
    if planned == [] then Effect(store, [], [])
    else WriteOne(WriteAll(store, planned[..|planned| - 1]), planned[|planned| - 1])
  }

  // ---- Phase B: CI flips -----------------------------------------------------------------

  /** A cold item with a real sha whose CI is still unknown. */
  predicate Pending(store: Store, slug: string) {
    slug in store && store[slug].tier == Cold && store[slug].testsGreen == Unknown && RealSha(store[slug].actedOn).Some?
  }

  function FlipOne(e: Effect, slug: string, resolve: string -> TestsGreen): Effect {
    if slug !in e.store then e.(skipped := e.skipped + [Skipped(slug, ItemMissing)])
    else
      var item := e.store[slug];
      if item.tier != Cold then e.(skipped := e.skipped + [Skipped(slug, ItemNotCold)])
      else if item.testsGreen != Unknown then e.(skipped := e.skipped + [Skipped(slug, ItemFlipped)])
      else if RealSha(item.actedOn).None? then e.(skipped := e.skipped + [Skipped(slug, CiUnresolved)])
      else
        var sha := RealSha(item.actedOn).value;
        var verdict := resolve(sha);
        if verdict != True && verdict != False then e.(skipped := e.skipped + [Skipped(slug, CiUnresolved)])
        else Effect(e.store[slug := item.(testsGreen := verdict)], e.done + [Planned(slug, sha, verdict)], e.skipped)
  }

  function FlipAll(e: Effect, slugs: seq<string>, resolve: string -> TestsGreen): Effect {
    if slugs == [] then e
    else FlipOne(FlipAll(e, slugs[..|slugs| - 1], resolve), slugs[|slugs| - 1], resolve)
  }

  ghost function PendingFlips(store: Store): seq<string> {
    Where(Listing(store.Keys), slug => Pending(store, slug))
  }

  lemma {:induction false} WhereInOrder(names: seq<string>, keep: string -> bool)
    requires Sorted(names, LexLe)
    ensures Sorted(Where(names, keep), LexLe)
  {
    if names != [] {
      var n := |names| - 1;
      var kept := Where(names[..n], keep);
      WhereInOrder(names[..n], keep);
      WhereIn(names[..n], keep);
      forall i | 0 <= i < |kept|
        ensures LexLe(kept[i], names[n])
      {
        assert kept[i] in names[..n];
      }
    }
  }

  /** The worklist is read in name order. */
  lemma PendingInOrder(store: Store)
    ensures Sorted(PendingFlips(store), LexLe)
  {
    ListingSorted(store.Keys);
    WhereInOrder(Listing(store.Keys), slug => Pending(store, slug));
  }

  /** The store after both phases. */
  ghost function Applied(store: Store, planned: seq<Planned>, resolve: string -> TestsGreen): Store {
    var written := WriteAll(store, planned).store;
    FlipAll(Effect(written, [], []), PendingFlips(written), resolve).store
  }

  /** The `.context/knowledge` directory. */
  class KnowledgeBase {
    var items: Store

    constructor (items: Store)
      ensures this.items == items
    {
      this.items := items;
    }

    /** `pending_flips`: read from the store as it is now. */
    method ReadPendingFlips() returns (slugs: seq<string>)
      ensures slugs == PendingFlips(items) && Sorted(slugs, LexLe)
    {
      var now := items;
      var listed := SortedNames(now.Keys);
      ghost var pending := slug => Pending(now, slug);
      slugs := [];
      for i := 0 to |listed|
        invariant slugs == Where(listed[..i], pending)
      {
        WhereStep(listed, i, pending);
        if Pending(now, listed[i]) {
          slugs := slugs + [listed[i]];
        }
      }
      assert listed[..|listed|] == listed;
      PendingInOrder(now);
    }

    /** `apply_attribution`: Phase A over the plan, then Phase B over the fresh worklist. */
    method ApplyAttribution(planned: seq<Planned>, resolve: string -> TestsGreen)
      returns (applied: seq<Planned>, flipped: seq<Planned>, skipped: seq<Skipped>)
      modifies this
      ensures items == Applied(old(items), planned, resolve)
      ensures var a := WriteAll(old(items), planned);
              var b := FlipAll(Effect(a.store, [], []), PendingFlips(a.store), resolve);
              applied == a.done && flipped == b.done && skipped == a.skipped + b.skipped
    {
      applied, skipped := WritePlanned(planned);
      ghost var written := items;
      var worklist := ReadPendingFlips();
      var late;
      flipped, late := FlipPending(worklist, resolve);
      skipped := skipped + late;
    }

    method WritePlanned(planned: seq<Planned>) returns (applied: seq<Planned>, skipped: seq<Skipped>)
      modifies this
      ensures Effect(items, applied, skipped) == WriteAll(old(items), planned)
    {
      applied, skipped := [], [];
      for i := 0 to |planned|
        invariant Effect(items, applied, skipped) == WriteAll(old(items), planned[..i])
      {
        var p := planned[i];
        assert planned[..i + 1][..i] == planned[..i];
        if p.slug !in items {
          skipped := skipped + [Skipped(p.slug, ItemMissing)];
          continue;
        }
        var item := items[p.slug];
        if item.tier != Cold {
          skipped := skipped + [Skipped(p.slug, ItemNotCold)];
          continue;
        }
        if RealSha(item.actedOn).Some? {
          skipped := skipped + [Skipped(p.slug, ItemAttributed)];
          continue;
        }
        var green := if p.testsGreen != True && p.testsGreen != False then Unknown else p.testsGreen;
        items := items[p.slug := item.(actedOn := Some(p.sha), testsGreen := green)];
        applied := applied + [Planned(p.slug, p.sha, green)];
      }
      assert planned[..|planned|] == planned;
    }

    method FlipPending(worklist: seq<string>, resolve: string -> TestsGreen)
      returns (flipped: seq<Planned>, skipped: seq<Skipped>)
      modifies this
      ensures Effect(items, flipped, skipped) == FlipAll(Effect(old(items), [], []), worklist, resolve)
    {
      flipped, skipped := [], [];
      for i := 0 to |worklist|
        invariant Effect(items, flipped, skipped) == FlipAll(Effect(old(items), [], []), worklist[..i], resolve)
      {
        var slug := worklist[i];
        assert worklist[..i + 1][..i] == worklist[..i];
        if slug !in items {
          skipped := skipped + [Skipped(slug, ItemMissing)];
          continue;
        }
        var item := items[slug];
        if item.tier != Cold {
          skipped := skipped + [Skipped(slug, ItemNotCold)];
          continue;
        }
        if item.testsGreen != Unknown {
          skipped := skipped + [Skipped(slug, ItemFlipped)];
          continue;
        }
        var sha := RealSha(item.actedOn);
        if sha.None? {
          skipped := skipped + [Skipped(slug, CiUnresolved)];
          continue;
        }
        var verdict := resolve(sha.value);
        if verdict != True && verdict != False {
          skipped := skipped + [Skipped(slug, CiUnresolved)];
          continue;
        }
        items := items[slug := item.(testsGreen := verdict)];
        flipped := flipped + [Planned(slug, sha.value, verdict)];
      }
      assert worklist[..|worklist|] == worklist;
    }
  }

  // ---- What the phases do to one item ------------------------------------------------------

  /** Phase B on a single item. */
  function FlipItem(item: Item, resolve: string -> TestsGreen): Item {
    if item.tier == Cold && item.testsGreen == Unknown && RealSha(item.actedOn).Some?
    then
      var verdict := resolve(RealSha(item.actedOn).value);
      if verdict == True || verdict == False then item.(testsGreen := verdict) else item
    else item
  }

  lemma FlipOneItem(e: Effect, slug: string, resolve: string -> TestsGreen)
    ensures var store := FlipOne(e, slug, resolve).store;
            store.Keys == e.store.Keys && forall s | s in store ::
              store[s] == if s == slug then FlipItem(e.store[s], resolve) else e.store[s]
  {
  }

  lemma {:induction false} FlipAllItems(e: Effect, slugs: seq<string>, resolve: string -> TestsGreen)
    requires Distinct(slugs)
    ensures var store := FlipAll(e, slugs, resolve).store;
            store.Keys == e.store.Keys && forall slug | slug in store ::
              store[slug] == if slug in slugs then FlipItem(e.store[slug], resolve) else e.store[slug]
  {
    if slugs != [] {
      var n := |slugs| - 1;
      FlipAllItems(e, slugs[..n], resolve);
      FlipOneItem(FlipAll(e, slugs[..n], resolve), slugs[n], resolve);
      assert slugs == slugs[..n] + [slugs[n]];
    }
  }

  /** Phase B flips every pending item and touches no other. */
  lemma PhaseBItems(store: Store, resolve: string -> TestsGreen)
    ensures FlipAll(Effect(store, [], []), PendingFlips(store), resolve).store ==
            map slug | slug in store :: FlipItem(store[slug], resolve)
  {
    var pending := slug => Pending(store, slug);
    WhereIn(Listing(store.Keys), pending);
    FlipAllItems(Effect(store, [], []), PendingFlips(store), resolve);
  }

  function PlannedFor(planned: seq<Planned>, slug: string): (p: Option<Planned>)
    ensures p.Some? ==> p.value in planned && p.value.slug == slug
    ensures p.None? ==> forall q | q in planned :: q.slug != slug
  {
    if planned == [] then None
    else if planned[|planned| - 1].slug == slug then Some(planned[|planned| - 1])
    else
      assert planned == planned[..|planned| - 1] + [planned[|planned| - 1]];
      PlannedFor(planned[..|planned| - 1], slug)
  }

  /** Phase A on a single item. */
  function WriteItem(store: Store, slug: string, planned: seq<Planned>): Item
    requires slug in store
  {
    var p := PlannedFor(planned, slug);
    if Candidate(store, slug) && p.Some? then
      store[slug].(actedOn := Some(p.value.sha), testsGreen := Literal(p.value.testsGreen))
    else store[slug]
  }

  /** Phase A writes every planned candidate once and touches no other item. */
  lemma {:induction false} PhaseAItems(store: Store, planned: seq<Planned>)
    requires forall i, j | 0 <= i < j < |planned| :: planned[i].slug != planned[j].slug
    ensures WriteAll(store, planned).store == map slug | slug in store :: WriteItem(store, slug, planned)
  {
    if planned != [] {
      var n := |planned| - 1;
      PhaseAItems(store, planned[..n]);
      assert PlannedFor(planned[..n], planned[n].slug).None?;
    }
  }

  // ---- What the phases report ---------------------------------------------------------------

  /** Why Phase A passes over a planned slug. */
  predicate PassedOver(store: Store, s: Skipped) {
    match s.reason
    case ItemMissing => s.slug !in store
    case ItemNotCold => s.slug in store && store[s.slug].tier != Cold
    case ItemAttributed => s.slug in store && store[s.slug].tier == Cold && RealSha(store[s.slug].actedOn).Some?
    case _ => false
  }

  predicate WrittenAs(store: Store, p: Planned, d: Planned) {
    && p.slug in store && store[p.slug].tier == Cold && RealSha(store[p.slug].actedOn).None?
    && d == p.(testsGreen := if p.testsGreen in {True, False} then p.testsGreen else Unknown)
  }

  ghost predicate ReportsWrites(store: Store, planned: seq<Planned>, done: seq<Planned>, skipped: seq<Skipped>) {
    && (forall s :: s in skipped <==> PassedOver(store, s) && exists p :: p in planned && p.slug == s.slug)
    && forall d :: d in done <==> exists p :: p in planned && WrittenAs(store, p, d)
  }

  lemma WriteOneReports(store: Store, init: seq<Planned>, e: Effect, p: Planned)
    requires ReportsWrites(store, init, e.done, e.skipped)
    requires (p.slug in e.store <==> p.slug in store) && (p.slug in store ==> e.store[p.slug] == store[p.slug])
    ensures var t := WriteOne(e, p); ReportsWrites(store, init + [p], t.done, t.skipped)
  {
    var t := WriteOne(e, p);
    forall s
      ensures s in t.skipped <==> PassedOver(store, s) && exists q :: q in init + [p] && q.slug == s.slug
    {
      assert s in t.skipped <==> s in e.skipped || (s.slug == p.slug && PassedOver(store, s));
      assert p in init + [p];
    }
    forall d
      ensures d in t.done <==> exists q :: q in init + [p] && WrittenAs(store, q, d)
    {
      assert d in t.done <==> d in e.done || WrittenAs(store, p, d);
      assert p in init + [p];
    }
  }

  /** Phase A reports each planned slug: written with its commit and CI value, or passed over and why. */
  lemma {:induction false} PhaseAReports(store: Store, planned: seq<Planned>)
    requires forall i, j | 0 <= i < j < |planned| :: planned[i].slug != planned[j].slug
    ensures var e := WriteAll(store, planned); ReportsWrites(store, planned, e.done, e.skipped)
  {
    if planned != [] {
      var init, last := planned[..|planned| - 1], planned[|planned| - 1];
      assert planned == init + [last];
      PhaseAReports(store, init);
      PhaseAItems(store, init);
      assert PlannedFor(init, last.slug).None?;
      WriteOneReports(store, init, WriteAll(store, init), last);
    }
  }

  /** What CI says now of the commit of a pending item. */
  function VerdictOf(store: Store, slug: string, resolve: string -> TestsGreen): TestsGreen
    requires Pending(store, slug)
  {
    resolve(RealSha(store[slug].actedOn).value)
  }

  ghost predicate ReportsFlips(store: Store, slugs: seq<string>, resolve: string -> TestsGreen, done: seq<Planned>,
                               skipped: seq<Skipped>)
    requires forall slug | slug in slugs :: Pending(store, slug)
  {
    && (forall s :: s in skipped <==>
          s.slug in slugs && s.reason == CiUnresolved && VerdictOf(store, s.slug, resolve) !in {True, False})
    && forall d: Planned :: d in done <==>
         && d.slug in slugs && Pending(store, d.slug) && d.testsGreen in {True, False}
         && d == Planned(d.slug, RealSha(store[d.slug].actedOn).value, VerdictOf(store, d.slug, resolve))
  }

  lemma FlipOneReports(store: Store, init: seq<string>, e: Effect, slug: string, resolve: string -> TestsGreen)
    requires Pending(store, slug) && forall s | s in init :: Pending(store, s)
    requires ReportsFlips(store, init, resolve, e.done, e.skipped) && slug in e.store && e.store[slug] == store[slug]
    ensures var t := FlipOne(e, slug, resolve); ReportsFlips(store, init + [slug], resolve, t.done, t.skipped)
  {
  }

  lemma {:induction false} FlipsReported(store: Store, slugs: seq<string>, resolve: string -> TestsGreen)
    requires Distinct(slugs) && forall slug | slug in slugs :: Pending(store, slug)
    ensures var e := FlipAll(Effect(store, [], []), slugs, resolve);
            ReportsFlips(store, slugs, resolve, e.done, e.skipped)
  {
    if slugs != [] {
      var init, last := slugs[..|slugs| - 1], slugs[|slugs| - 1];
      assert slugs == init + [last];
      FlipsReported(store, init, resolve);
      FlipAllItems(Effect(store, [], []), init, resolve);
      assert last !in init;
      FlipOneReports(store, init, FlipAll(Effect(store, [], []), init, resolve), last, resolve);
    }
  }

  /** Phase B reports each pending item: flipped to the verdict CI gives now, or left because there is none. */
  lemma PhaseBReports(store: Store, resolve: string -> TestsGreen)
    ensures forall slug :: slug in PendingFlips(store) <==> Pending(store, slug)
    ensures var e := FlipAll(Effect(store, [], []), PendingFlips(store), resolve);
            ReportsFlips(store, PendingFlips(store), resolve, e.done, e.skipped)
  {
    WhereIn(Listing(store.Keys), slug => Pending(store, slug));
    FlipsReported(store, PendingFlips(store), resolve);
  }
}
